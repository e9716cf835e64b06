# Users::Create — a verified model of user registration

This project models `Users::Create`, the registration interaction of a
small Rails application, in Dafny. A request carries a user's surname,
name, patronymic, email, age, nationality, country and gender. It may also
carry a list of Interest names and a comma-separated string of Skill names.
The interaction runs in this order:

1. **Type check.** Every input filter needs a value. A missing input gets
   the error "is required" on that field. Interests default to `[]` and
   skills to `""`.
2. **Validations.** These run only when the type check passed, and they
   run in the same pass, so their errors accumulate:
   - the gender must be exactly `"male"` or `"female"`;
   - the age must be at most 90.
3. **`execute`.** It runs only when there were no errors. If a user
   already has the email, it records "already exists" on the email and
   writes nothing. Otherwise it:
   - inserts the user row with the full name `surname + " " + name + " " + patronymic`;
   - links the user to each Interest named in the list;
   - links the user to each Skill named in the skills string. The string
     is split on commas, with Ruby's `split` dropping trailing empty
     fields, and each token is stripped.

   Names that match no row are skipped silently.

The project has three modules:

- `Wrappers` (`Option`, `Result`).
- `Text`: Ruby's `split` on one character and Ruby's `strip`, with their
  algebra (split/join round trips, idempotence of strip).
- `Users`:
  - the entities, and the two validation stages as functions;
  - name lookup, `find_by` followed by `compact`, as functions;
  - the store as a class `Store`, with one sequence per table and methods
    for each step of `execute`.

A row's id is its position in its table.

`Scenarios` replays each case of the interaction's own test suite. Each
scenario is a method that builds a store, calls `Store.Create`, and
asserts the expected result from `Create`'s contract together with the
lemmas about name resolution (`ResolveOne`, `RubyRailsLinksBoth`,
`UnknownInterestsLinkNothing`, `NoSkillsLinksNothing`). It never relies on
the bodies of the store's methods.

## Model

| member | source | states |
|---|---|---|
| Users.FieldsDeclared | app/interactions/users/create.rb:5-14 | every input field is one of the ten declared filters, and each is declared once |
| Users.Missing | app/interactions/users/create.rb:5-14 | a field is reported missing exactly when it is among the checked fields and has no value; when the checked fields are distinct, so are the missing ones |
| Users.RequiredErrors | app/interactions/users/create.rb:5-14 | the "is required" error names a field exactly when that field is missing, and every error carries that message; distinct missing fields give distinct errors |
| Users.TypeCheck | app/interactions/users/create.rb:5-14 | fails exactly when some required input is absent, with exactly one "is required" error for each absent input and no other error; on success each input is the value given, and interests/skills default to `[]`/`""` |
| Users.RuleErrors | app/interactions/users/create.rb:16-17 | no error exactly when the gender is listed and the age is at most 90; an inclusion error on gender iff the gender is not "male"/"female"; an age error iff age > 90 (so 90 passes); no other errors |
| Users.Validate | app/interactions/users/create.rb:5-17 | accepted exactly when every input has a value, the gender is listed and the age is at most 90; type errors alone are reported when present, otherwise both validation errors together; a rejection always has at least one error |
| Users.FullName | app/interactions/users/create.rb:43-45 | the full name is the surname, a space, the name, a space and the patronymic: each part sits in its place and the length is the parts' lengths plus two |
| Users.FullNameParts | app/interactions/users/create.rb:43-45 | the full name splits on spaces back into surname, name and patronymic when none of them contains a space |
| Users.Lookup | app/interactions/users/create.rb:63 | `find_by(name:)` misses exactly when no row has the name; a hit is the first row with exactly that name |
| Users.Resolve | app/interactions/users/create.rb:70 | lookup then `compact`: no more ids than names, each a row that some name matches exactly, and the first row with that name |
| Users.ResolveOne | app/interactions/users/create.rb:63-64 | one name gives its first row when some row has the name, and nothing otherwise |
| Users.ResolveAppend | app/interactions/users/create.rb:62-65 | resolution goes name by name: the ids of `a + b` are those of `a` followed by those of `b`, so each matching name adds its row once per occurrence, in the order of the names |
| Users.ResolvePair | app/interactions/users/create.rb:70 | two names that both match rows give their two rows, in order |
| Users.ResolveHits | app/interactions/users/create.rb:62-65 | every name that matches a row contributes that row's id |
| Users.ResolveNone | app/interactions/users/create.rb:62-65 | nothing is linked exactly when no name matches a row |
| Users.ResolveAll | app/interactions/users/create.rb:70 | every name yields a row exactly when every name matches a row |
| Users.LinksTo | app/interactions/users/create.rb:64 | one join row per resolved id, in order, each from the given user to that id |
| Users.SkillNames | app/interactions/users/create.rb:70 | one name per field of Ruby's split on commas; each name holds no comma and has no surrounding whitespace |
| Users.SkillIds | app/interactions/users/create.rb:70 | no more ids than skill names; each id is an existing Skill row whose name is one of the skill names |
| Users.SkillNamesShape | app/interactions/users/create.rb:70 | each skill name holds no comma and has no surrounding whitespace; there are none exactly when the string is made of commas only |
| Users.SkillNamesOfFields | app/interactions/users/create.rb:70 | comma-joined fields that end in a non-empty field give one name per field, that field stripped |
| Users.SkillNamesOfList | app/interactions/users/create.rb:70 | a list of names written "A, B, C" gives back exactly those names, in order |
| Users.NoSkillsLinksNothing | app/interactions/users/create.rb:14 | the default skills string `""` links no skill |
| Users.RubyRailsNames | spec/interactions/users/create_spec.rb:22 | "Ruby, Rails" names exactly Ruby, then Rails |
| Users.RubyRailsLinksBoth | spec/interactions/users/create_spec.rb:26-38 | "Ruby, Rails" links exactly two skills when both rows exist: Ruby's row, then Rails's |
| Users.UnknownInterestsLinkNothing | spec/interactions/users/create_spec.rb:143-165 | interest names that match no Interest link nothing |
| Users.OmittedListsLinkNothing | app/interactions/users/create.rb:13-14 | a request with every required input that omits interests and skills passes the type check with the defaults `[]` and `""`, and so links nothing |
| Users.LinksWithinAppend | app/interactions/users/create.rb:61-72 | join rows from the new user to existing rows keep every join row pointing at an existing user and row |
| Users.EmailInUse | app/interactions/users/create.rb:34-36 | `User.exists?(email:)` holds exactly when some user row has that email |
| Users.EmailsDistinctAppend | app/interactions/users/create.rb:20-22 | inserting a user whose email is not in use keeps all emails distinct |
| Users.Store.constructor | spec/interactions/users/create_spec.rb:6-8 | a store seeded with the given users, Interests and Skills (as the suite seeds them here and, for users, at lines 63-75) and no join rows; referential integrity holds |
| Users.Store.EmailUnique | app/interactions/users/create.rb:34-36 | the email is unique exactly when no user row has it |
| Users.Store.CreateUser | app/interactions/users/create.rb:47-59 | appends exactly one row holding the inputs and the full name, with the next id; other users are unchanged; distinct emails stay distinct |
| Users.Store.AssociateInterests | app/interactions/users/create.rb:61-67 | name by name, appends one join row per name that matches an Interest and nothing for the others; earlier join rows are unchanged |
| Users.Store.AssociateSkills | app/interactions/users/create.rb:69-72 | appends the join rows for the skills the string names, in order; earlier join rows are unchanged |
| Users.Store.Execute | app/interactions/users/create.rb:19-26 | email in use: only the "already exists" error, nothing written. Otherwise: one user appended with its fields and full name; join rows for exactly the matching Interests and Skills, all from that user; reference rows never change; referential integrity and distinct emails are preserved |
| Scenarios.SuiteLinks | spec/interactions/users/create_spec.rb:26-38 | the suite's valid registration links user 0 to Interest 0 and to Skills 0 and 1, in that order |
| Scenarios.LinksToPair | app/interactions/users/create.rb:71 | linking a user to two rows gives the two join rows, in order |
| Users.Store.Create | app/interactions/users/create.rb:4-26 | rejected inputs: their errors, and the store unchanged. Accepted inputs: everything `Execute` promises, so the email is checked only after the validations pass; integrity and distinct emails are preserved |
| Text.RubySplit | app/interactions/users/create.rb:70 | Ruby's `split`: a prefix of the raw fields, none holding the separator, and never ending in an empty field |
| Text.Split | app/interactions/users/create.rb:70 | splitting gives at least one field and no field holds the separator |
| Text.SplitJoin | app/interactions/users/create.rb:70 | splitting loses nothing: joining the fields gives the string back |
| Text.SplitWithoutSep | app/interactions/users/create.rb:70 | a string without the separator is one field |
| Text.SplitAtSep | app/interactions/users/create.rb:70 | a separator after a separator-free prefix ends the first field there |
| Text.JoinSplit | app/interactions/users/create.rb:70 | separator-free fields come back unchanged from their join |
| Text.SplitAllEmpty | app/interactions/users/create.rb:70 | every field is empty exactly when the string is made of separators only |
| Text.DropTrailingEmpty | app/interactions/users/create.rb:70 | Ruby's removal of trailing empty fields keeps a prefix, drops only empty fields, and leaves no empty field last |
| Text.RubySplitShape | app/interactions/users/create.rb:70 | Ruby's split keeps the fields in order, none holds the separator, and it yields none exactly for a string of separators |
| Text.LeadingSpaces | app/interactions/users/create.rb:70 | counts exactly the run of whitespace at the front |
| Text.TrailingSpaces | app/interactions/users/create.rb:70 | counts exactly the run of whitespace at the back |
| Text.Strip | app/interactions/users/create.rb:70 | the result is a slice of the input, preceded and followed only by whitespace, with neither end a whitespace character |
| Text.StripStripped | app/interactions/users/create.rb:70 | stripping a string that is already stripped changes nothing |
| Text.StripAfterSpace | app/interactions/users/create.rb:70 | the space after a comma in "A, B" is removed |
| Text.StripIdempotent | app/interactions/users/create.rb:70 | stripping twice is stripping once |
| Text.StripKeepsOut | app/interactions/users/create.rb:70 | stripping adds no character, so a name without commas stays without commas |

## Left out

- The lower age bound `greater_than: 0` (app/interactions/users/create.rb:9) is not modelled. It is an option passed to the library's integer filter, and this repository does not show whether it is enforced. A zero or negative age is therefore accepted by the model.
- Users.TypeCheck: only checks that a value is present. The library's coercion is left out: turning `"30"` into `30`, stripping string inputs, and the "is not a valid …" errors for a value of the wrong type. Blank strings are accepted, because the code never rejects them; requiring non-empty text would go beyond the code.
- Users.TypeCheck: lists its errors in declaration order. The library's own ordering is not visible here.
- Users.Lookup and Users.EmailInUse compare names and emails with exact string equality. Database collation and case sensitivity are not modelled. With duplicate names, `find_by` is taken to return the row with the lowest id.
- Users.Resolve: an empty token left after stripping is looked up like any other name. It matches only a Skill literally named `""`. The code has no step that discards empty tokens.
- Message formatting is not modelled: errors are stored as (field, message) pairs, and turning them into full messages such as "Age must be …" is library code.
- The HTTP controller and its JSON responses (app/controllers/users_controller.rb) are not modelled. Neither is parameter whitelisting.
- Users.Store.CreateUser: inserts always succeed. `create!` raising on a database error is not modelled, and the `User` model class is not part of this model.
- The race between the email check and the insert under concurrent requests is not modelled. The model is sequential.
- Row timestamps and database-assigned ids are not modelled. A row's id is its position in its table.
- Interests and Skills are fixed seeds of the store. Their own creation is outside the interaction.
