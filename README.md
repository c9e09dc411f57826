# bookshelf-model-relations in Dafny

This project models the resolver that bookshelf-model-relations exports. Given a Bookshelf model
class, the resolver reads the source text of each method on the model's prototype. It finds the
methods that declare a relation (`return this.hasMany('Book')`, `return this.belongsTo('User')
.through('Membership')`, ...). For each, it builds a descriptor holding:

- the member's name;
- the relation's type;
- whether it goes through another model;
- the owning model's name (`modelFromName`);
- the target model's name (`modelToName`);
- the through-model's name;
- one join key, either `keyFrom` or `keyTo`.

The model is in four modules.

- `JsText` (text.dfy) has the JavaScript values the resolver handles: a string or `null`. It also
  has the text a template literal gives for them (`${null}` is `"null"`) and the character scans
  the patterns are built from. Those scans are `\s*`, `\.*`, `[^,\)]*`, and the first or last
  occurrence of a character.
- `Matchers` (matchers.dfy) writes out the five regular expressions of the frozen `MATCHERS`
  object exactly.
  - Each becomes a function that says whether, and how, the pattern matches at one position. The
    function follows the engine's greedy quantifiers, its backtracking, and the order in which the
    MODEL_TO_NAME alternation tries the seven verbs.
  - `Exec` is the engine's leftmost search over those positions. `Test` and `Capture` are
    `regex.test` and the module's `capture` helper.
  - The lemmas then say what each pattern means in plain terms. THROUGH tests true exactly when
    `through\s*\(` occurs anywhere. THROUGH_MODEL_NAME captures the argument of the first such
    call. MODEL_TO_NAME captures the first argument of the leftmost verb call, and is null when
    there is none. The `type` capture holds no `(`.
- `Assignments` (assignments.dfy) models a sequence of property assignments on a JavaScript
  object: a store under a key replaces whatever an earlier one stored.
- `ModelRelations` (relations.dfy) has the resolver itself.
  - `Resolve` is the loop of the source. It skips reserved names. It skips members without an
    inner block or without a RELATIONSHIP_TYPE match. It stores the record, then fills in
    `keyFrom` or `keyTo` with a second assignment.
  - `Resolve` is proved equal to the function `Relations`. The lemmas beside `Relations` state
    which names end up in the map, which member's descriptor each holds, and the shape of every
    descriptor.

The model departs from the JavaScript's form in four ways. What it leaves out because of them is listed under "## Left out".

- **Members are an input.** A model class is its `tableName` plus the list of its prototype's own
  members in `Reflect.ownKeys` order. Each member is a name and the text `toString()` gives for
  its value. Dafny has no reflection, so this list stands in for it.
- **Library functions are parameters.** The lodash and inflection functions the resolver calls
  (`snakeCase`, `upperFirst`, `singularize`, `toLower`) are fields of a `Naming` value. Nothing
  proved here depends on how they work.
- **The option is an `Option`.** `options.modelName` is an `Option<Nullable>`. `None` means the
  option (or `options` itself) is undefined, so `_.defaults` fills in
  `upperFirst(singularize(toLower(tableName)))`. `Some(v)` is a value the caller passed, `null`
  included, which `_.defaults` keeps.
- **`type` is renamed.** The record's `type` field is `kind`, because `type` is a Dafny keyword.

The source makes one decision that a reader might not expect, and the model keeps it. The
RELATIONSHIP_TYPE test at index.js:43 does not run on the inner block's text. It runs on the
*match array* of INNER_FUNCTION_BLOCK, which JavaScript turns into a string: the whole match, a
comma, then group 1 (`MatchArrayText`). The `type` field, however, is captured from the member's
whole text. So a member can be kept while its `type` is null, or is a capture from a place other
than the one the test looked at. `DeclaresRelation` models the test as written. `ResolvedEntryCaptures`
states that `type` is the capture from the whole text, whichever verb (or non-verb) it is.
`KeptMemberWithNullType` exhibits a member kept with a null `type`: its text is
`){(return this.x}`. The group of its inner block has no `(` after `this.`, but the comma-joined
copy of the group in the match array's string form supplies one.

## Model

| member | source | states |
|---|---|---|
| `ModelRelations.Resolve` | index.js:28-63 | The loop's result is exactly `Relations`: one descriptor per kept member name, and a later member of a name replaces an earlier one. |
| `ModelRelations.Relations` | index.js:28-63 | No contract of its own: the resolver's result as a function. Its meaning is stated by `ReservedNamesNeverResolved`, `ResolvedIffDeclaresRelation`, `ResolvedEntryShape` and `ResolvedEntryCaptures`. |
| `ModelRelations.DefaultModelName` | index.js:33 | No contract of its own: `upperFirst(singularize(toLower(tableName)))`. `ResolvedEntryShape` states that it is every entry's owner when no model name is passed. |
| `ModelRelations.OwningModelName` | index.js:32-34 | No contract of its own: `options.modelName` after `_.defaults`. `ResolvedEntryShape` states that every entry's `modelFromName` is the passed name, or else the default. |
| `ModelRelations.DeclaresRelation` | index.js:41-43 | No contract of its own: the two tests after the reserved-name check. `ResolvedIffDeclaresRelation` ties it to the result's keys, and `KeptMemberWithNullType` shows a text that passes it with a null `type`. |
| `ModelRelations.Describe` | index.js:45-60 | No contract of its own: the record with its key filled in. `DescriptorShape` and `NullModelNameKeys` state its shape. |
| `ModelRelations.IdKey` | index.js:57-59 | No contract of its own: `snakeCase` of the model name followed by `_id`. `NullModelNameKeys` states what a null model name gives. |
| `ModelRelations.NullModelNameKeys` | index.js:56-60 | A null name prints as `null` in a key. A `belongsTo` whose target was not captured gets `keyFrom = snakeCase("null_id")`. Any other type with a null owner gets `keyTo = snakeCase("null_id")`. |
| `ModelRelations.KeptMemberWithNullType` | index.js:41-47 | The member `author` with text `){(return this.x}` is not reserved and declares a relation, yet its descriptor's `type` is null. |
| `ModelRelations.Entry` | index.js:37-43 | No contract of its own: the loop's two `continue` tests. `ResolvedIffDeclaresRelation` states which members are kept. |
| `ModelRelations.ReservedNamesNeverResolved` | index.js:38 | `constructor`, `tableName` and `idAttribute` are never keys of the result, whatever their text. |
| `ModelRelations.ResolvedIffDeclaresRelation` | index.js:37-45 | A name is a key of the result iff some member has that name, the name is not reserved, and the member's inner block passes the RELATIONSHIP_TYPE test. Every other member is skipped, with no error. |
| `ModelRelations.RelationMapKeys` | index.js:36-45 | The keys of the map built from a member list are exactly the names of its relation members. |
| `ModelRelations.RelationMapValues` | index.js:45-54 | Each key holds the descriptor of the LAST relation member with that name. No later member of that name is a relation member. |
| `ModelRelations.DistinctNamesKeepEveryDescriptor` | index.js:37-45 | When member names are distinct, as `Reflect.ownKeys` yields them, every relation member's own descriptor is stored under its name. |
| `ModelRelations.DescriptorShape` | index.js:45-60 | A descriptor is named by its member and owned by the given model. A `belongsTo` gets `keyFrom = snakeCase(modelToName + "_id")` and a null `keyTo`; any other type gets `keyTo = snakeCase(modelFromName + "_id")` and a null `keyFrom`, so exactly one key is set. `through` holds exactly when a through-model name was captured. |
| `ModelRelations.ResolvedEntryShape` | index.js:32-60 | Every entry of the result is named by its key. Its `modelFromName` is the passed option, or else `upperFirst(singularize(toLower(tableName)))`. It has exactly one key, set by the `belongsTo` rule, and its `through` agrees with `throughModelName`. |
| `ModelRelations.ResolvedEntryCaptures` | index.js:45-54 | The `type`, `modelToName`, `through` and `throughModelName` of every entry are the four captures from the text of a relation member of that name, and no later member of that name is a relation member. |
| `Assignments.AssignKeepsLastStore` | index.js:45 | After a run of assignments, a key is present iff some element stored under it. It holds the value of the last element that did. |
| `Assignments.AssignKeys` | index.js:45 | The keys of the result are exactly the keys of the elements that store something. |
| `Assignments.AssignValueAt` | index.js:45 | The value under a key of the result is that of an element that stored under it, after which no element stores under that key. |
| `Assignments.Assign` | index.js:45 | No contract of its own: the object after the assignments. `AssignKeepsLastStore`, `AssignKeys` and `AssignValueAt` state its keys and values. |
| `Assignments.LastStore` | index.js:45 | The index found is an element that stores under the key, and no later element does. `None` means no element does. |
| `Matchers.FirstVerbCall` | index.js:22 | The alternation of MODEL_TO_NAME picks the first verb, in `RELATIONSHIP_TYPES` order, that is followed by white space and `(`. No earlier verb is. `None` means no verb is. |
| `Matchers.InnerFunctionBlockAt` | index.js:19 | INNER_FUNCTION_BLOCK matches at `p` iff `p` holds `)`, the white space after it ends at a `{`, and some `}` follows. The group starts right after that `{` and ends at a `}` that ends the match. |
| `Matchers.InnerFunctionBlockSkipsSpace` | index.js:19 | Only white space lies between the `)` and the `{` of a match. |
| `Matchers.InnerFunctionBlockEndsAtLastBrace` | index.js:19 | The greedy `[\s\S]*` makes the inner block end at the last `}` of the text. |
| `Matchers.RelationshipTypeAt` | index.js:20 | RELATIONSHIP_TYPE matches at `p` iff `return`, white space, `this`, white space and `.` occur at `p` and some `(` follows. The group starts past the white space after the dot. The match ends just after the `(` that ends the group. |
| `Matchers.RelationshipTypeGroupStopsAtParen` | index.js:20 | The group of RELATIONSHIP_TYPE contains no `(`. |
| `Matchers.RelationshipTypeHasNoParen` | index.js:47 | The record's `type` is the text of the leftmost match from past `return\s*this\s*\.\s*` up to the first `(` after it, so it contains no `(`. |
| `Matchers.ThroughAt` | index.js:21 | THROUGH matches at `p` iff `through\s*\(` follows the dots that start at `p`. |
| `Matchers.ModelToNameAt` | index.js:22 | MODEL_TO_NAME matches at `p` iff some verb call starts there. The group starts right after that call's `(` and ends at the next comma, `)` or end of text. |
| `Matchers.ThroughModelNameAt` | index.js:23 | THROUGH_MODEL_NAME matches at `p` iff `through\s*\(` follows the white space at `p`. The group is that call's argument up to a comma or `)`. |
| `Matchers.MatchAt` | index.js:18-24 | A match of any of the five patterns at `p` starts at `p` and is well formed. |
| `Matchers.Leftmost` | index.js:26 | The first position from `from` whose attempt succeeds. No earlier attempt succeeds. `None` means none does. |
| `Matchers.Exec` | index.js:41 | The leftmost match: the pattern matches where it starts and at no earlier position. `None` means it matches nowhere. |
| `Matchers.Capture` | index.js:26 | `capture` is null exactly when the pattern matches at no position. Otherwise it is group 1 of the match at the first position where it matches. |
| `Matchers.Test` | index.js:43 | No contract of its own: `regex.test`, true when `Exec` finds a match. `TestIffSomeMatch` states its meaning. |
| `Matchers.MatchArrayText` | index.js:43 | The string form of a match array is the whole match, a comma, then group 1. |
| `Matchers.TestIffSomeMatch` | index.js:26 | `test` is true exactly when the pattern matches at some position. |
| `Matchers.ThroughTestIffCall` | index.js:48 | `through` is true exactly when `through\s*\(` occurs somewhere in the text. The leading `\.*` adds nothing. |
| `Matchers.ThroughModelNameTestIffCall` | index.js:23 | THROUGH_MODEL_NAME tests true exactly when `through\s*\(` occurs somewhere. The leading `\s*` adds nothing. |
| `Matchers.ThroughAgreesWithThroughModelName` | index.js:48-53 | `through` is true exactly when `throughModelName` is not null. |
| `Matchers.FirstThroughCall` | index.js:23 | The first position from `from` where `through\s*\(` occurs. No earlier position has one. `None` means none does. |
| `Matchers.ThroughModelNameMatchFindsFirstCall` | index.js:23 | The leftmost THROUGH_MODEL_NAME match, past its white space, is at the first `through\s*\(` of the text. |
| `Matchers.ThroughModelNameIsFirstThroughArgument` | index.js:53 | `throughModelName` is the argument of the first `through\s*\(` call, up to a comma or `)`. It is null when there is no such call. |
| `Matchers.ModelToNameNullIffNoVerbCall` | index.js:52 | `modelToName` is null exactly when none of the seven verbs, followed by white space and `(`, occurs anywhere. |
| `Matchers.ModelToNameIsFirstArgument` | index.js:52 | `modelToName` is the argument text of the leftmost verb call. No position before it starts a verb call. |
| `Matchers.ModelToNameHasNoArgumentEnd` | index.js:52 | `modelToName` contains no comma and no `)`, so a second argument never becomes part of it. |
| `JsText.SkipSpaceSkipsSpace` | index.js:20 | Every character a `\s*` run passes over is white space, and it stops at a non-space or at the end. |
| `JsText.IndexOfIsFirst` | index.js:20 | No character between the start and the position found (or the end of the text) is the sought one. |
| `JsText.LastIndexOfIsLast` | index.js:19 | No character after the position found is the sought one. When nothing is found, no character from the lower bound on is. |
| `JsText.ArgumentEndSkipsArgument` | index.js:22 | A `[^,\)]*` run passes over no comma and no `)`. |

## Left out

- Reflection (index.js:29-30, 37, 40): `new Model()`, `Reflect.getPrototypeOf`, `Reflect.ownKeys`
  and `proto[prop].toString()` are not modelled. The model takes their outcome as input: the
  table name and the list of (name, text) members.
- Things that would throw are not modelled. A member whose value is `null` or `undefined`, or a
  getter that throws, makes `toString()` fail in the source. Every member here has a text.
- Symbol-keyed members are not modelled. `Reflect.ownKeys` also yields symbols; names here are
  strings only.
- A `tableName` that is not a string is not modelled. The model's table name is always a string.
- lodash and inflection (`_.snakeCase`, `_.upperFirst`, `_.toLower`, `inflection.singularize`) are
  uninterpreted parameters. Their own behaviour, such as how `snakeCase` splits words, is not part
  of this model.
- `_.defaults` is modelled only for its effect on `modelName` within one call: a missing option is
  filled in and a passed one, `null` included, is kept. The rest of the options object is
  ignored, as the resolver ignores it.
- OwningModelName does not model that `_.defaults(options, …)` writes the default `modelName` into
  the caller's own `options` object. The model takes `modelName` as a value, so this aliasing is
  not captured. With `const o = {}`, a call for `Post` and then a call for `User` with the same
  `o` give the second call's entries `modelFromName` `'Post'`.
- OwningModelName admits only a string or `null` as a passed `modelName`. A number, object or
  other value, which the template literal of index.js:59 would print as text, is not modelled.
- Relations: a member named `__proto__` is a key of the model's map like any other name. In the
  source, the store at index.js:45 into the plain object `{}` calls the inherited `__proto__`
  setter instead: the result gets no own `__proto__` key, the descriptor becomes its prototype,
  and lines 56-60 update that descriptor through the inherited accessor. `ResolvedIffDeclaresRelation`
  and the other lemmas about the keys therefore do not describe this one name.
- The key order of the returned object is not modelled. The result is a Dafny `map`, so
  JavaScript's insertion order and its reordering of integer-like keys are not represented.
- Characters are not UTF-16 code units. Strings are sequences of Dafny characters, which are
  Unicode scalar values, while JavaScript strings are UTF-16 code units. No pattern here treats a
  character outside the Basic Multilingual Plane specially, so the captured texts agree; only
  the positions differ.
- The regular-expression engine is not modelled in general. Each of the five patterns is written
  out as its own scanner.
- No worked example (a concrete model class with its expected descriptor map) is proved as a
  concrete instance. The lemmas above state the general properties those examples illustrate.
- Relation annotations, structured overrides, a `multiple` flag, `keyThrough`, keys derived from
  `idAttribute`, and keys taken from a relation call's explicit arguments are not modelled. These
  are described for the package but are not in index.js. The model follows index.js, where
  `keyFrom` and `keyTo` come only from the `belongsTo` rule and the other fields come only from
  the four captures.
