/**
 * The user-registration interaction `Users::Create`: the request's inputs are
 * type-checked, then validated (gender inclusion, upper age bound); if they
 * pass and the email is not in use, a user row is inserted and linked to the
 * existing Interest and Skill rows whose names it mentions.
 *
 * The relational store is abstracted as a `Store` object holding one sequence
 * per table. A row's id is its position in its sequence.
 */
module Users {
  import opened Wrappers
  import opened Text

  // ---------------------------------------------------------------------
  // Entities
  // ---------------------------------------------------------------------

  /** A row of the `users` table (timestamps are not modelled). */
  datatype User = User(
    surname: string,
    name: string,
    patronymic: string,
    email: string,
    age: int,
    nationality: string,
    country: string,
    gender: string,
    fullName: string)

  /** A row of `user_interests` or `user_skills`: the user's id and the Interest's or Skill's id. */
  datatype Link = Link(userId: nat, refId: nat)

  /** The inputs of the interaction, in the order they are declared. */
  datatype Field =
    | Surname | Name | Patronymic | Email | Age | Nationality | Country | Gender
    | Interests | Skills

  /** An error attached to one input field, as `errors.add(field, message)` records it. */
  datatype FieldError = FieldError(field: Field, message: string)

  /** A request as it arrives: any input may be absent. */
  datatype Request = Request(
    surname: Option<string>,
    name: Option<string>,
    patronymic: Option<string>,
    email: Option<string>,
    age: Option<int>,
    nationality: Option<string>,
    country: Option<string>,
    gender: Option<string>,
    interests: Option<seq<string>>,
    skills: Option<string>)

  /** The inputs once every filter has a value. */
  datatype Inputs = Inputs(
    surname: string,
    name: string,
    patronymic: string,
    email: string,
    age: int,
    nationality: string,
    country: string,
    gender: string,
    interests: seq<string>,
    skills: string)

  /** What a run of the interaction yields: the new user, or the accumulated errors. */
  datatype Outcome = Created(id: nat, user: User) | Invalid(errors: seq<FieldError>)

  const MaxAge: int := 90
  const RequiredMessage: string := "is required"
  const InclusionMessage: string := "is not included in the list"
  const AgeMessage: string := "must be less than or equal to 90"
  const EmailTakenMessage: string := "already exists"

  /** The inputs in their order of declaration. */
  const DeclaredFields: seq<Field> :=
    [Surname, Name, Patronymic, Email, Age, Nationality, Country, Gender, Interests, Skills]

  // ---------------------------------------------------------------------
  // First stage: every filter must have a value
  // ---------------------------------------------------------------------

  /** The filter for `f` has a value: it was given, or it has a default. */
  predicate Supplied(req: Request, f: Field)
  {
    match f
    case Surname => req.surname.Some?
    case Name => req.name.Some?
    case Patronymic => req.patronymic.Some?
    case Email => req.email.Some?
    case Age => req.age.Some?
    case Nationality => req.nationality.Some?
    case Country => req.country.Some?
    case Gender => req.gender.Some?
    case Interests => true
    case Skills => true
  }

  /** No element occurs twice. */
  predicate Distinct<T(==)>(s: seq<T>)
  {
    forall i, j :: 0 <= i < j < |s| ==> s[i] != s[j]
  }

  /** The fields of `fs`, in order, that have no value. */
  function Missing(req: Request, fs: seq<Field>): (r: seq<Field>)
    ensures |r| <= |fs|
    ensures forall f :: f in r <==> f in fs && !Supplied(req, f)
    ensures Distinct(fs) ==> Distinct(r)
  {
    if fs == [] then []
    else (if Supplied(req, fs[0]) then [] else [fs[0]]) + Missing(req, fs[1..])
  }

  /** One "is required" error per missing field, in order. */
  function RequiredErrors(missing: seq<Field>): (errs: seq<FieldError>)
    ensures forall f :: FieldError(f, RequiredMessage) in errs <==> f in missing
    ensures forall e :: e in errs ==> e.message == RequiredMessage
    ensures Distinct(missing) ==> Distinct(errs)
  {
    if missing == [] then []
    else [FieldError(missing[0], RequiredMessage)] + RequiredErrors(missing[1..])
  }

  /** Every field is one of the declared inputs. */
  lemma FieldsDeclared()
    ensures forall f :: f in DeclaredFields
    ensures Distinct(DeclaredFields)
  {
    forall f ensures f in DeclaredFields {
      match f
      case Surname => assert DeclaredFields[0] == f;
      case Name => assert DeclaredFields[1] == f;
      case Patronymic => assert DeclaredFields[2] == f;
      case Email => assert DeclaredFields[3] == f;
      case Age => assert DeclaredFields[4] == f;
      case Nationality => assert DeclaredFields[5] == f;
      case Country => assert DeclaredFields[6] == f;
      case Gender => assert DeclaredFields[7] == f;
      case Interests => assert DeclaredFields[8] == f;
      case Skills => assert DeclaredFields[9] == f;
    }
  }

  /**
   * The type check that runs before any validation: one "is required" error
   * per input without a value, in declaration order; otherwise the inputs
   * with the defaults `[]` for interests and `""` for skills filled in.
   */
  function TypeCheck(req: Request): (r: Result<Inputs, seq<FieldError>>)
    ensures r.Failure? <==> exists f :: !Supplied(req, f)
    ensures r.Failure? ==> forall f :: FieldError(f, RequiredMessage) in r.error <==> !Supplied(req, f)
    ensures r.Failure? ==> forall e :: e in r.error ==> e.message == RequiredMessage
    ensures r.Failure? ==> Distinct(r.error)
    ensures r.Success? ==>
      && req.surname == Some(r.value.surname) && req.name == Some(r.value.name)
      && req.patronymic == Some(r.value.patronymic) && req.email == Some(r.value.email)
      && req.age == Some(r.value.age) && req.nationality == Some(r.value.nationality)
      && req.country == Some(r.value.country) && req.gender == Some(r.value.gender)
      && r.value.interests == (if req.interests.Some? then req.interests.value else [])
      && r.value.skills == (if req.skills.Some? then req.skills.value else "")
  {
    var missing := Missing(req, DeclaredFields);
    FieldsDeclared();
    if missing != [] then
      assert !Supplied(req, missing[0]);
      Failure(RequiredErrors(missing))
    else
      assert Supplied(req, Surname) && Supplied(req, Name) && Supplied(req, Patronymic);
      assert Supplied(req, Email) && Supplied(req, Age) && Supplied(req, Nationality);
      assert Supplied(req, Country) && Supplied(req, Gender);
      Success(Inputs(
        req.surname.value, req.name.value, req.patronymic.value, req.email.value,
        req.age.value, req.nationality.value, req.country.value, req.gender.value,
        req.interests.GetOr([]), req.skills.GetOr("")))
  }

  // ---------------------------------------------------------------------
  // Second stage: the declared validations
  // ---------------------------------------------------------------------

  /** The gender is exactly one of the two listed values. */
  predicate GenderIncluded(gender: string)
  {
    gender == "male" || gender == "female"
  }

  /**
   * The errors of the validations, both run on the same pass: gender
   * inclusion first, then the upper age bound.
   */
  function RuleErrors(inp: Inputs): (r: seq<FieldError>)
    ensures r == [] <==> GenderIncluded(inp.gender) && inp.age <= MaxAge
    ensures FieldError(Gender, InclusionMessage) in r <==> !GenderIncluded(inp.gender)
    ensures FieldError(Age, AgeMessage) in r <==> inp.age > MaxAge
    ensures forall e :: e in r ==> e == FieldError(Gender, InclusionMessage) || e == FieldError(Age, AgeMessage)
  {
    (if GenderIncluded(inp.gender) then [] else [FieldError(Gender, InclusionMessage)]) +
    (if inp.age > MaxAge then [FieldError(Age, AgeMessage)] else [])
  }

  /**
   * The whole validation pass: the validations run only when the type check
   * found nothing, and the inputs are accepted only when neither stage
   * reported an error.
   */
  function Validate(req: Request): (r: Result<Inputs, seq<FieldError>>)
    ensures r.Success? <==>
      && (forall f :: Supplied(req, f))
      && req.gender.Some? && GenderIncluded(req.gender.value)
      && req.age.Some? && req.age.value <= MaxAge
    ensures r.Success? ==> TypeCheck(req) == r
    ensures r.Failure? ==> r.error != []
    ensures TypeCheck(req).Failure? ==> r == TypeCheck(req)
    ensures r.Failure? && TypeCheck(req).Success? ==> r.error == RuleErrors(TypeCheck(req).value)
  {
    match TypeCheck(req)
    case Failure(errs) =>
      Failure(errs)
    case Success(inp) =>
      var errs := RuleErrors(inp);
      if errs == [] then Success(inp) else Failure(errs)
  }

  // ---------------------------------------------------------------------
  // Building the row
  // ---------------------------------------------------------------------

  /** The full name: surname, name and patronymic, separated by single spaces. */
  function FullName(surname: string, name: string, patronymic: string): (full: string)
    ensures |full| == |surname| + |name| + |patronymic| + 2
    ensures full[..|surname|] == surname && full[|surname|] == ' '
    ensures full[|surname| + 1..|surname| + 1 + |name|] == name && full[|surname| + 1 + |name|] == ' '
    ensures full[|surname| + |name| + 2..] == patronymic
  {
    surname + " " + name + " " + patronymic
  }

  /**
   * The full name keeps its three parts: when none of them contains a space,
   * splitting it on spaces gives them back in order.
   */
  lemma FullNameParts(surname: string, name: string, patronymic: string)
    requires ' ' !in surname && ' ' !in name && ' ' !in patronymic
    ensures Split(FullName(surname, name, patronymic), ' ') == [surname, name, patronymic]
  {
    var parts := [surname, name, patronymic];
    assert Join(parts[2..], ' ') == patronymic;
    assert parts[1..][1..] == parts[2..];
    assert Join(parts, ' ') == FullName(surname, name, patronymic);
    JoinSplit(parts, ' ');
  }

  /** The row `create_user` writes: each input unchanged, plus the full name. */
  predicate Registers(user: User, inp: Inputs)
  {
    && user.surname == inp.surname && user.name == inp.name && user.patronymic == inp.patronymic
    && user.email == inp.email && user.age == inp.age && user.nationality == inp.nationality
    && user.country == inp.country && user.gender == inp.gender
    && user.fullName == FullName(inp.surname, inp.name, inp.patronymic)
  }

  // ---------------------------------------------------------------------
  // Looking rows up by name
  // ---------------------------------------------------------------------

  /**
   * `find_by(name:)` on a reference table: the id of the first row with
   * exactly that name, or nothing.
   */
  function Lookup(table: seq<string>, name: string): (r: Option<nat>)
    ensures r.None? <==> name !in table
    ensures r.Some? ==> r.value < |table| && table[r.value] == name
    ensures r.Some? ==> forall j :: 0 <= j < r.value ==> table[j] != name
  {
    if table == [] then None
    else if table[0] == name then Some(0)
    else match Lookup(table[1..], name)
      case Some(i) => Some(i + 1)
      case None => None
  }

  /**
   * The rows the names resolve to, in the order of the names, with the names
   * that match no row dropped: lookup, then `compact`.
   */
  function Resolve(table: seq<string>, names: seq<string>): (ids: seq<nat>)
    ensures |ids| <= |names|
    ensures forall id :: id in ids ==> id < |table| && table[id] in names && Lookup(table, table[id]) == Some(id)
    decreases |names|
  {
    if names == [] then []
    else
      var front := Resolve(table, names[..|names| - 1]);
      match Lookup(table, names[|names| - 1])
      case Some(id) => front + [id]
      case None => front
  }

  /** Every name that matches a row contributes that row. */
  lemma {:induction false} ResolveHits(table: seq<string>, names: seq<string>)
    ensures forall n :: n in names && Lookup(table, n).Some? ==> Lookup(table, n).value in Resolve(table, names)
    decreases |names|
  {
    if names != [] {
      var front := names[..|names| - 1];
      ResolveHits(table, front);
      forall n | n in names && Lookup(table, n).Some?
        ensures Lookup(table, n).value in Resolve(table, names)
      {
        if n != names[|names| - 1] {
          assert n in front;
        }
      }
    }
  }

  /** Nothing is resolved exactly when no name matches a row. */
  lemma {:induction false} ResolveNone(table: seq<string>, names: seq<string>)
    ensures Resolve(table, names) == [] <==> forall n :: n in names ==> n !in table
    decreases |names|
  {
    if names != [] {
      var front := names[..|names| - 1];
      ResolveNone(table, front);
      assert names == front + [names[|names| - 1]];
    }
  }

  /** Every name yields a row exactly when every name matches a row. */
  lemma {:induction false} ResolveAll(table: seq<string>, names: seq<string>)
    ensures |Resolve(table, names)| == |names| <==> forall n :: n in names ==> n in table
    decreases |names|
  {
    if names != [] {
      var front := names[..|names| - 1];
      ResolveAll(table, front);
      assert names == front + [names[|names| - 1]];
    }
  }

  /** A single name resolves to its first row when it has one, and to nothing otherwise. */
  lemma ResolveOne(table: seq<string>, name: string)
    ensures Resolve(table, [name]) == if name in table then [Lookup(table, name).value] else []
  {
    assert [name][..0] == [];
  }

  /**
   * Resolution goes name by name: the ids of a concatenation are the ids of
   * its first part followed by those of its second, so each matching name
   * contributes its row, in the order of the names, once per occurrence.
   */
  lemma {:induction false} ResolveAppend(table: seq<string>, a: seq<string>, b: seq<string>)
    ensures Resolve(table, a + b) == Resolve(table, a) + Resolve(table, b)
    decreases |b|
  {
    if b == [] {
      assert a + b == a;
    } else {
      var last := b[|b| - 1];
      var front := b[..|b| - 1];
      ResolveAppend(table, a, front);
      assert (a + b)[..|a + b| - 1] == a + front;
      assert (a + b)[|a + b| - 1] == last;
      match Lookup(table, last)
      case Some(id) =>
        assert Resolve(table, a + b) == Resolve(table, a) + Resolve(table, front) + [id];
      case None =>
    }
  }

  /** The join rows linking one user to each of the given rows, in order. */
  function LinksTo(userId: nat, ids: seq<nat>): (links: seq<Link>)
    ensures |links| == |ids|
    ensures forall k :: 0 <= k < |ids| ==> links[k] == Link(userId, ids[k])
  {
    seq(|ids|, k requires 0 <= k < |ids| => Link(userId, ids[k]))
  }

  /** Every join row refers to an existing user and an existing reference row. */
  predicate LinksWithin(links: seq<Link>, userCount: nat, refCount: nat)
  {
    forall k :: 0 <= k < |links| ==> links[k].userId < userCount && links[k].refId < refCount
  }

  // ---------------------------------------------------------------------
  // Skill names
  // ---------------------------------------------------------------------

  /**
   * The skill names in the skills string: split on commas (Ruby's split, which
   * drops trailing empty fields) and each field stripped.
   */
  function SkillNames(text: string): (names: seq<string>)
    ensures |names| == |RubySplit(text, ',')|
    ensures forall k :: 0 <= k < |names| ==> ',' !in names[k] && IsStripped(names[k])
  {
    var fields := RubySplit(text, ',');
    assert forall k :: 0 <= k < |fields| ==> ',' !in Strip(fields[k]) by {
      forall k | 0 <= k < |fields| ensures ',' !in Strip(fields[k]) {
        StripKeepsOut(fields[k], ',');
      }
    }
    seq(|fields|, k requires 0 <= k < |fields| => Strip(fields[k]))
  }

  /**
   * Each skill name is stripped and holds no comma; there are none exactly
   * when the string is made of commas only (in particular when it is empty).
   */
  lemma SkillNamesShape(text: string)
    ensures forall k :: 0 <= k < |SkillNames(text)| ==>
      ',' !in SkillNames(text)[k] && IsStripped(SkillNames(text)[k])
    ensures SkillNames(text) == [] <==> forall i :: 0 <= i < |text| ==> text[i] == ','
  {
    var fields := RubySplit(text, ',');
    RubySplitShape(text, ',');
    forall k | 0 <= k < |fields|
      ensures ',' !in Strip(fields[k]) && IsStripped(Strip(fields[k]))
    {
      StripKeepsOut(fields[k], ',');
    }
  }

  /**
   * Comma-separated fields whose last one is not empty come back as their
   * stripped selves, one name per field.
   */
  lemma SkillNamesOfFields(fields: seq<string>)
    requires |fields| >= 1 && fields[|fields| - 1] != ""
    requires forall k :: 0 <= k < |fields| ==> ',' !in fields[k]
    ensures |SkillNames(Join(fields, ','))| == |fields|
    ensures forall k :: 0 <= k < |fields| ==> SkillNames(Join(fields, ','))[k] == Strip(fields[k])
  {
    JoinSplit(fields, ',');
  }

  /** The rows that the skills string links to, as `associate_skills` finds them. */
  function SkillIds(table: seq<string>, text: string): (ids: seq<nat>)
    ensures |ids| <= |SkillNames(text)|
    ensures forall id :: id in ids ==> id < |table| && table[id] in SkillNames(text)
  {
    Resolve(table, SkillNames(text))
  }

  /** An empty skills string, the default, links no skill. */
  lemma NoSkillsLinksNothing(table: seq<string>)
    ensures SkillIds(table, "") == []
  {
    SkillNamesShape("");
  }

  /** Names written the usual way, separated by a comma and a space. */
  function CommaSpaced(names: seq<string>): string
  {
    Join(seq(|names|, k requires 0 <= k < |names| => if k == 0 then names[0] else " " + names[k]), ',')
  }

  /**
   * A list of non-empty names written as "A, B, C" gives back exactly those
   * names, in order.
   */
  lemma SkillNamesOfList(names: seq<string>)
    requires |names| >= 1
    requires forall k :: 0 <= k < |names| ==> names[k] != "" && IsStripped(names[k]) && ',' !in names[k]
    ensures SkillNames(CommaSpaced(names)) == names
  {
    var fields := seq(|names|, k requires 0 <= k < |names| => if k == 0 then names[0] else " " + names[k]);
    forall k | 0 <= k < |names|
      ensures ',' !in fields[k] && Strip(fields[k]) == names[k]
    {
      if k == 0 {
        StripStripped(names[k]);
      } else {
        StripAfterSpace(names[k]);
      }
    }
    SkillNamesOfFields(fields);
  }

  /** Two names that both match rows resolve to their two rows, in order. */
  lemma ResolvePair(table: seq<string>, first: string, second: string)
    requires first in table && second in table
    ensures Resolve(table, [first, second]) == [Lookup(table, first).value, Lookup(table, second).value]
  {
    ResolveAppend(table, [first], [second]);
    ResolveOne(table, first);
    ResolveOne(table, second);
    assert [first, second] == [first] + [second];
  }

  /** "Ruby, Rails" names Ruby, then Rails. */
  lemma RubyRailsNames()
    ensures SkillNames("Ruby, Rails") == ["Ruby", "Rails"]
  {
    var names := ["Ruby", "Rails"];
    assert CommaSpaced(names) == "Ruby, Rails" by {
      var fields := seq(|names|, k requires 0 <= k < |names| => if k == 0 then names[0] else " " + names[k]);
      assert |fields| == 2 && fields[0] == "Ruby" && fields[1] == " Rails";
      assert fields == ["Ruby", " Rails"];
      assert Join(fields, ',') == "Ruby" + [','] + " Rails";
    }
    SkillNamesOfList(names);
  }

  /**
   * "Ruby, Rails" names Ruby and Rails, so with both rows present it links
   * both: Ruby's row first, then Rails's.
   */
  lemma RubyRailsLinksBoth(table: seq<string>)
    requires "Ruby" in table && "Rails" in table
    ensures SkillIds(table, "Ruby, Rails") == [Lookup(table, "Ruby").value, Lookup(table, "Rails").value]
  {
    RubyRailsNames();
    ResolvePair(table, "Ruby", "Rails");
  }

  /** An interests list naming no existing Interest links nothing. */
  lemma UnknownInterestsLinkNothing(table: seq<string>, names: seq<string>)
    requires forall n :: n in names ==> n !in table
    ensures Resolve(table, names) == []
  {
    ResolveNone(table, names);
  }

  /**
   * A request that omits interests and skills gets their defaults, `[]` and
   * `""`, and so links nothing.
   */
  lemma OmittedListsLinkNothing(req: Request, interests: seq<string>, skills: seq<string>)
    requires forall f :: Supplied(req, f)
    requires req.interests.None? && req.skills.None?
    ensures TypeCheck(req).Success?
    ensures Resolve(interests, TypeCheck(req).value.interests) == []
    ensures SkillIds(skills, TypeCheck(req).value.skills) == []
  {
    NoSkillsLinksNothing(skills);
  }

  /** Join rows added for an existing user and existing rows keep referential integrity. */
  lemma LinksWithinAppend(links: seq<Link>, userCount: nat, newCount: nat, refCount: nat, userId: nat, ids: seq<nat>)
    requires LinksWithin(links, userCount, refCount)
    requires userCount <= newCount && userId < newCount
    requires forall id :: id in ids ==> id < refCount
    ensures LinksWithin(links + LinksTo(userId, ids), newCount, refCount)
  {
    var added := LinksTo(userId, ids);
    forall k | 0 <= k < |links + added|
      ensures (links + added)[k].userId < newCount && (links + added)[k].refId < refCount
    {
      if k >= |links| {
        assert (links + added)[k] == Link(userId, ids[k - |links|]);
        assert ids[k - |links|] in ids;
      }
    }
  }

  // ---------------------------------------------------------------------
  // Email uniqueness
  // ---------------------------------------------------------------------

  /** `User.exists?(email:)`: some user row already has exactly this email. */
  function EmailInUse(users: seq<User>, email: string): (taken: bool)
    ensures taken <==> exists i :: 0 <= i < |users| && users[i].email == email
  {
    if users == [] then false
    else users[0].email == email || EmailInUse(users[1..], email)
  }

  /** No two user rows share an email. */
  predicate EmailsDistinct(users: seq<User>)
  {
    forall i, j :: 0 <= i < j < |users| ==> users[i].email != users[j].email
  }

  /** Appending a user whose email is not in use keeps emails distinct. */
  lemma EmailsDistinctAppend(users: seq<User>, user: User)
    requires EmailsDistinct(users) && !EmailInUse(users, user.email)
    ensures EmailsDistinct(users + [user])
  {
    var all := users + [user];
    forall i, j | 0 <= i < j < |all|
      ensures all[i].email != all[j].email
    {
      assert all[i] == users[i];
    }
  }

  // ---------------------------------------------------------------------
  // The store and the interaction
  // ---------------------------------------------------------------------

  /** The tables the interaction reads and writes. */
  class Store {
    var users: seq<User>
    var interests: seq<string>
    var skills: seq<string>
    var userInterests: seq<Link>
    var userSkills: seq<Link>

    /** Referential integrity of the join tables. */
    ghost predicate Valid()
      reads this
    {
      LinksWithin(userInterests, |users|, |interests|) && LinksWithin(userSkills, |users|, |skills|)
    }

    /** A store seeded with existing users and reference rows, and no join rows. */
    constructor (users: seq<User>, interests: seq<string>, skills: seq<string>)
      ensures this.users == users && this.interests == interests && this.skills == skills
      ensures userInterests == [] && userSkills == []
      ensures Valid()
    {
      this.users := users;
      this.interests := interests;
      this.skills := skills;
      userInterests := [];
      userSkills := [];
    }

    /** `email_unique?`: no user row has this email yet. */
    function EmailUnique(email: string): (unique: bool)
      reads this
      ensures unique <==> forall i :: 0 <= i < |users| ==> users[i].email != email
    {
      !EmailInUse(users, email)
    }

    /** `create_user`: inserts the row for the inputs and the full name. */
    method CreateUser(inp: Inputs, fullName: string) returns (id: nat, user: User)
      modifies this`users
      ensures user == User(inp.surname, inp.name, inp.patronymic, inp.email, inp.age,
                           inp.nationality, inp.country, inp.gender, fullName)
      ensures id == |old(users)| && users == old(users) + [user]
      ensures EmailsDistinct(old(users)) && !EmailInUse(old(users), inp.email) ==> EmailsDistinct(users)
    {
      user := User(inp.surname, inp.name, inp.patronymic, inp.email, inp.age,
                   inp.nationality, inp.country, inp.gender, fullName);
      id := |users|;
      if EmailsDistinct(users) && !EmailInUse(users, inp.email) {
        EmailsDistinctAppend(users, user);
      }
      users := users + [user];
    }

    /**
     * `associate_interests`: name by name, a join row for each name that
     * matches an Interest; the others are skipped.
     */
    method AssociateInterests(userId: nat, names: seq<string>)
      modifies this`userInterests
      ensures userInterests == old(userInterests) + LinksTo(userId, Resolve(interests, names))
    {
      for i := 0 to |names|
        invariant userInterests == old(userInterests) + LinksTo(userId, Resolve(interests, names[..i]))
      {
        ghost var before := Resolve(interests, names[..i]);
        assert names[..i + 1][..i] == names[..i];
        match Lookup(interests, names[i]) {
          case Some(id) =>
            assert Resolve(interests, names[..i + 1]) == before + [id];
            assert LinksTo(userId, before + [id]) == LinksTo(userId, before) + [Link(userId, id)];
            userInterests := userInterests + [Link(userId, id)];
          case None =>
            assert Resolve(interests, names[..i + 1]) == before;
        }
      }
      assert names[..|names|] == names;
    }

    /**
     * `associate_skills`: the skills string's names are looked up, the misses
     * dropped, and the hits linked in one batch.
     */
    method AssociateSkills(userId: nat, text: string)
      modifies this`userSkills
      ensures userSkills == old(userSkills) + LinksTo(userId, SkillIds(skills, text))
    {
      var found := Resolve(skills, SkillNames(text));
      userSkills := userSkills + LinksTo(userId, found);
    }

    /**
     * What `execute` does, given inputs that passed validation: when the email
     * is in use, the "already exists" error on the email and no change at all;
     * otherwise the new user row, built from the inputs, appended with id
     * `|old(users)|`, and join rows from it to the Interests and Skills it
     * names, appended after the existing ones. Reference rows never change.
     */
    twostate predicate Executed(inp: Inputs, outcome: Outcome)
      reads this
    {
      && interests == old(interests) && skills == old(skills)
      && (outcome.Invalid? <==> EmailInUse(old(users), inp.email))
      && (outcome.Invalid? ==>
            && outcome.errors == [FieldError(Email, EmailTakenMessage)]
            && users == old(users) && userInterests == old(userInterests) && userSkills == old(userSkills))
      && (outcome.Created? ==>
            && outcome.id == |old(users)|
            && Registers(outcome.user, inp)
            && users == old(users) + [outcome.user]
            && userInterests == old(userInterests) + LinksTo(outcome.id, Resolve(interests, inp.interests))
            && userSkills == old(userSkills) + LinksTo(outcome.id, SkillIds(skills, inp.skills)))
    }

    /**
     * `execute`: the uniqueness check on the email, then the user row, then
     * its interests and its skills. Referential integrity and distinct
     * emails are kept.
     */
    method Execute(inp: Inputs) returns (outcome: Outcome)
      modifies this
      ensures Executed(inp, outcome)
      ensures old(Valid()) ==> Valid()
      ensures EmailsDistinct(old(users)) ==> EmailsDistinct(users)
    {
      if !EmailUnique(inp.email) {
        return Invalid([FieldError(Email, EmailTakenMessage)]);
      }
      ghost var interestIds, skillIds := Resolve(interests, inp.interests), Resolve(skills, SkillNames(inp.skills));
      var id, user := CreateUser(inp, FullName(inp.surname, inp.name, inp.patronymic));
      AssociateInterests(id, inp.interests);
      AssociateSkills(id, inp.skills);
      outcome := Created(id, user);
      assert Registers(user, inp);
      if old(Valid()) {
        LinksWithinAppend(old(userInterests), |old(users)|, |users|, |interests|, id, interestIds);
        LinksWithinAppend(old(userSkills), |old(users)|, |users|, |skills|, id, skillIds);
      }
    }

    /**
     * `Users::Create.run`: the validation pass, then `execute` only if it
     * reported nothing. Invalid inputs give their errors and leave the store
     * as it was.
     */
    method Create(req: Request) returns (outcome: Outcome)
      modifies this
      ensures Validate(req).Failure? ==> outcome == Invalid(Validate(req).error) && unchanged(this)
      ensures Validate(req).Success? ==> Executed(Validate(req).value, outcome)
      ensures old(Valid()) ==> Valid()
      ensures EmailsDistinct(old(users)) ==> EmailsDistinct(users)
    {
      var validated := Validate(req);
      if validated.Failure? {
        return Invalid(validated.error);
      }
      outcome := Execute(validated.value);
    }
  }
}
