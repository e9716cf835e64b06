/**
 * The registration scenarios of the interaction's own test suite, replayed
 * against the contract of `Users.Store.Create` and the lemmas about name
 * resolution (`ResolveOne`, `RubyRailsLinksBoth`, `UnknownInterestsLinkNothing`,
 * `NoSkillsLinksNothing`): a client of the store can conclude each expected
 * result without looking at the implementation of the store's methods.
 * Each scenario starts from a store holding the Interest "Sports" and the
 * Skills "Ruby" and "Rails"; inputs the scenario does not constrain may be
 * anything.
 */
module Scenarios {
  import opened Wrappers
  import opened Users

  /**
   * The join rows of the suite's valid registration: the new user, id 0, is
   * linked to Interest 0 ("Sports") and to Skills 0 and 1 ("Ruby", "Rails").
   */
  lemma SuiteLinks(userId: nat, interests: seq<string>, skills: string, userInterests: seq<Link>, userSkills: seq<Link>)
    requires userId == 0 && interests == ["Sports"] && skills == "Ruby, Rails"
    requires userInterests == LinksTo(userId, Resolve(["Sports"], interests))
    requires userSkills == LinksTo(userId, SkillIds(["Ruby", "Rails"], skills))
    ensures userInterests == [Link(0, 0)]
    ensures userSkills == [Link(0, 0), Link(0, 1)]
  {
    ResolveOne(["Sports"], "Sports");
    assert Lookup(["Sports"], "Sports") == Some(0);
    RubyRailsLinksBoth(["Ruby", "Rails"]);
    assert Lookup(["Ruby", "Rails"], "Ruby") == Some(0);
    assert Lookup(["Ruby", "Rails"], "Rails") == Some(1);
    LinksToPair(userId, 0, 1);
  }

  /** Linking a user to two rows gives the two join rows, in order. */
  lemma LinksToPair(userId: nat, first: nat, second: nat)
    ensures LinksTo(userId, [first, second]) == [Link(userId, first), Link(userId, second)]
  {
  }

  /** A valid request creates the user and links "Sports", "Ruby" and "Rails". */
  method ValidRegistration(req: Request)
    requires forall f :: Supplied(req, f)
    requires req.surname == Some("Smith") && req.name == Some("John") && req.patronymic == Some("Doe")
    requires req.age == Some(30) && req.gender == Some("male")
    requires req.interests == Some(["Sports"]) && req.skills == Some("Ruby, Rails")
  {
    var store := new Store([], ["Sports"], ["Ruby", "Rails"]);
    var outcome := store.Create(req);
    var inp := Validate(req).value;
    assert inp.interests == ["Sports"] && inp.skills == "Ruby, Rails";
    assert !EmailInUse([], inp.email);
    assert outcome.Created? && store.users == [outcome.user];
    assert outcome.user.email == req.email.value;
    assert outcome.id == 0 && store.interests == ["Sports"] && store.skills == ["Ruby", "Rails"];
    SuiteLinks(outcome.id, inp.interests, inp.skills, store.userInterests, store.userSkills);
    assert store.userInterests == [Link(0, 0)];
    assert store.userSkills == [Link(0, 0), Link(0, 1)];
    assert outcome.user.fullName == FullName("Smith", "John", "Doe");
  }

  /** An age of 100 is rejected with an error on the age, and nothing is written. */
  method AgeOverLimit(req: Request)
    requires forall f :: Supplied(req, f)
    requires req.age == Some(100) && req.gender == Some("male")
  {
    var store := new Store([], ["Sports"], ["Ruby", "Rails"]);
    var outcome := store.Create(req);
    assert Validate(req).error == RuleErrors(TypeCheck(req).value);
    assert outcome.Invalid? && FieldError(Age, AgeMessage) in outcome.errors;
    assert store.users == [] && store.userInterests == [] && store.userSkills == [];
  }

  /** A second registration with an email in use is rejected on the email. */
  method DuplicateEmail(req: Request, existing: User)
    requires forall f :: Supplied(req, f)
    requires req.age == Some(28) && req.gender == Some("male")
    requires req.email == Some(existing.email)
  {
    var store := new Store([existing], ["Sports"], ["Ruby", "Rails"]);
    var outcome := store.Create(req);
    assert EmailInUse([existing], Validate(req).value.email);
    assert outcome == Invalid([FieldError(Email, EmailTakenMessage)]);
    assert store.users == [existing] && store.userInterests == [] && store.userSkills == [];
  }

  /** A gender outside the list is rejected on the gender. */
  method GenderNotListed(req: Request)
    requires forall f :: Supplied(req, f)
    requires req.age == Some(30) && req.gender == Some("other")
  {
    var store := new Store([], ["Sports"], ["Ruby", "Rails"]);
    var outcome := store.Create(req);
    assert Validate(req).error == RuleErrors(TypeCheck(req).value);
    assert outcome.Invalid? && FieldError(Gender, InclusionMessage) in outcome.errors;
    assert store.users == [];
  }

  /** A request without a surname is rejected with an error naming the surname. */
  method SurnameMissing(req: Request)
    requires req.surname == None
  {
    var store := new Store([], ["Sports"], ["Ruby", "Rails"]);
    var outcome := store.Create(req);
    assert !Supplied(req, Surname);
    assert outcome.Invalid? && FieldError(Surname, RequiredMessage) in outcome.errors;
    assert store.users == [];
  }

  /** An interest that does not exist is skipped; the registration still succeeds. */
  method UnknownInterest(req: Request)
    requires forall f :: Supplied(req, f)
    requires req.age == Some(30) && req.gender == Some("male")
    requires req.interests == Some(["NonExistentInterest"])
  {
    var store := new Store([], ["Sports"], ["Ruby", "Rails"]);
    var outcome := store.Create(req);
    var inp := Validate(req).value;
    assert !EmailInUse([], inp.email);
    assert outcome.Created?;
    assert store.userInterests == [] by {
      UnknownInterestsLinkNothing(["Sports"], inp.interests);
    }
  }

  /** An empty skills string links no skill; the registration still succeeds. */
  method EmptySkills(req: Request)
    requires forall f :: Supplied(req, f)
    requires req.age == Some(30) && req.gender == Some("male") && req.skills == Some("")
  {
    var store := new Store([], ["Sports"], ["Ruby", "Rails"]);
    var outcome := store.Create(req);
    var inp := Validate(req).value;
    assert !EmailInUse([], inp.email);
    assert outcome.Created?;
    assert store.userSkills == [] by {
      NoSkillsLinksNothing(["Ruby", "Rails"]);
    }
  }
}
