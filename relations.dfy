/** The exported resolver of bookshelf-model-relations: for a model, a map from each prototype member
    that declares a relation to that relation's descriptor. */
module ModelRelations {
  import opened JsText
  import opened Matchers
  import opened Assignments

  /** The lodash and inflection functions the resolver calls. They are parameters: nothing proved
      here depends on how they work inside. */
  datatype Naming = Naming(
    snakeCase: string -> string,   // _.snakeCase
    upperFirst: string -> string,  // _.upperFirst
    singularize: string -> string, // inflection.singularize
    toLower: string -> string)     // _.toLower

  /** One own property of the model's prototype: its key and the text `toString()` gives for it. */
  datatype Member = Member(name: string, text: string)

  /** What the resolver reads of a model class: the instance's `tableName` and the prototype's own
      members, in `Reflect.ownKeys` order. */
  datatype ModelSource = ModelSource(tableName: string, members: seq<Member>)

  /** The descriptor the resolver stores per relation. `kind` is the record's `type` field. */
  datatype Relation = Relation(
    name: string,
    kind: Nullable,
    through: bool,
    keyFrom: Nullable,
    keyTo: Nullable,
    modelFromName: Nullable,
    modelToName: Nullable,
    throughModelName: Nullable)

  /** Prototype keys the resolver never looks at. */
  const ReservedNames: seq<string> := ["constructor", "tableName", "idAttribute"]

  /** The owning model's conventional name: `upperFirst(singularize(toLower(tableName)))`. */
  function DefaultModelName(naming: Naming, tableName: string): (name: string) {
    naming.upperFirst(naming.singularize(naming.toLower(tableName)))
  }

  /** `options.modelName` after `_.defaults`: `modelName` is `None` when the option (or the whole
      options object) is undefined, and `Some(v)` when the caller passed `v`, `null` included. */
  function OwningModelName(naming: Naming, tableName: string, modelName: Option<Nullable>): (owner: Nullable) {
    match modelName
    case None => Str(DefaultModelName(naming, tableName))
    case Some(v) => v
  }

  /** The text has an inner function block, and RELATIONSHIP_TYPE tests true on that block's match
      array as JavaScript turns it into a string (whole match, a comma, group 1). */
  predicate DeclaresRelation(text: string) {
    match Exec(text, InnerFunctionBlock, 0)
    case None => false
    case Some(block) => Test(MatchArrayText(text, block), RelationshipType)
  }

  /** The member survives both `continue` tests of the loop. */
  predicate IsRelationMember(m: Member) {
    m.name !in ReservedNames && DeclaresRelation(m.text)
  }

  /** `_.snakeCase(`${model}_id`)`; a null model prints as "null". */
  function IdKey(naming: Naming, model: Nullable): (key: string) {
    naming.snakeCase(TemplateText(model) + "_id")
  }

  /** The finished descriptor of a relation member: the record the loop inserts, with `keyFrom`
      (for `belongsTo`) or `keyTo` (otherwise) filled in. */
  function Describe(naming: Naming, owner: Nullable, m: Member): (r: Relation) {
    var kind := Capture(m.text, RelationshipType);
    var modelToName := Capture(m.text, ModelToName);
    Relation(
      name := m.name,
      kind := kind,
      through := Test(m.text, Through),
      keyFrom := if kind == Str(BelongsTo) then Str(IdKey(naming, modelToName)) else Null,
      keyTo := if kind == Str(BelongsTo) then Null else Str(IdKey(naming, owner)),
      modelFromName := owner,
      modelToName := modelToName,
      throughModelName := Capture(m.text, ThroughModelName))
  }

  /** What the loop stores for one member: its descriptor, or nothing when it is skipped. */
  function Entry(naming: Naming, owner: Nullable, m: Member): (r: Option<Relation>)
  {
    if IsRelationMember(m) then Some(Describe(naming, owner, m)) else None
  }

  /** A member's key. */
  function MemberName(m: Member): string {
    m.name
  }

  /** `Entry` for one owning model, as a function of the member. */
  function EntryOf(naming: Naming, owner: Nullable): Member -> Option<Relation> {
    m => Entry(naming, owner, m)
  }

  /** The relations of a member list, each later member's entry replacing an earlier one's. */
  function RelationMap(naming: Naming, owner: Nullable, members: seq<Member>): (relations: map<string, Relation>) {
    Assign(members, MemberName, EntryOf(naming, owner))
  }

  /** What the exported function returns for `model` and `options.modelName`. */
  function Relations(naming: Naming, model: ModelSource, modelName: Option<Nullable>): (relations: map<string, Relation>) {
    RelationMap(naming, OwningModelName(naming, model.tableName, modelName), model.members)
  }

  /** The exported resolver: a loop over the prototype's keys that skips reserved and non-relation
      members, inserts a record per relation member and then fills in its `keyFrom` or `keyTo`. */
  method Resolve(naming: Naming, model: ModelSource, modelName: Option<Nullable>)
    returns (relationships: map<string, Relation>)
    ensures relationships == Relations(naming, model, modelName)
  {
    var owner := OwningModelName(naming, model.tableName, modelName);
    relationships := map[];
    for i := 0 to |model.members|
      invariant relationships == RelationMap(naming, owner, model.members[..i])
    {
      AssignStep(model.members, MemberName, EntryOf(naming, owner), i);
      var prop := model.members[i].name;
      if prop in ReservedNames {
        continue;
      }
      var functionString := model.members[i].text;
      var innerBlock := Exec(functionString, InnerFunctionBlock, 0);
      if innerBlock.None? || !Test(MatchArrayText(functionString, innerBlock.value), RelationshipType) {
        continue;
      }
      ghost var before := relationships;
      relationships := relationships[prop := Relation(
        name := prop,
        kind := Capture(functionString, RelationshipType),
        through := Test(functionString, Through),
        keyFrom := Null,
        keyTo := Null,
        modelFromName := owner,
        modelToName := Capture(functionString, ModelToName),
        throughModelName := Capture(functionString, ThroughModelName))];
      ghost var inserted := relationships[prop];
      if Str(BelongsTo) == relationships[prop].kind {
        relationships := relationships[prop := relationships[prop].(
          keyFrom := Str(naming.snakeCase(TemplateText(relationships[prop].modelToName) + "_id")))];
      } else {
        relationships := relationships[prop := relationships[prop].(
          keyTo := Str(naming.snakeCase(TemplateText(relationships[prop].modelFromName) + "_id")))];
      }
      ReplaceEntry(before, prop, inserted, relationships[prop]);
      assert relationships[prop] == Describe(naming, owner, model.members[i]);
    }
    assert model.members[..|model.members|] == model.members;
  }

  /** Storing a key twice keeps the second value only. */
  lemma ReplaceEntry<K, V>(m: map<K, V>, k: K, first: V, second: V)
    ensures m[k := first][k := second] == m[k := second]
  {
  }

  // ---------------------------------------------------------------------------------------------
  // Which members end up in the map, and with which descriptor

  /** A name is a key of the map exactly when some relation member has it. */
  lemma RelationMapKeys(naming: Naming, owner: Nullable, members: seq<Member>)
    ensures forall k :: k in RelationMap(naming, owner, members) <==>
      exists i :: 0 <= i < |members| && members[i].name == k && IsRelationMember(members[i])
  {
    AssignKeys(members, MemberName, EntryOf(naming, owner));
  }

  /** The descriptor stored under a name is that of the LAST relation member of that name. */
  lemma RelationMapValues(naming: Naming, owner: Nullable, members: seq<Member>)
    ensures forall k :: k in RelationMap(naming, owner, members) ==>
      exists i :: (0 <= i < |members| && members[i].name == k && IsRelationMember(members[i])
        && RelationMap(naming, owner, members)[k] == Describe(naming, owner, members[i])
        && forall j :: i < j < |members| && members[j].name == k ==> !IsRelationMember(members[j]))
  {
    forall k | k in RelationMap(naming, owner, members)
      ensures exists i :: (0 <= i < |members| && members[i].name == k && IsRelationMember(members[i])
        && RelationMap(naming, owner, members)[k] == Describe(naming, owner, members[i])
        && forall j :: i < j < |members| && members[j].name == k ==> !IsRelationMember(members[j]))
    {
      AssignValueAt(members, MemberName, EntryOf(naming, owner), k);
    }
  }

  /** With distinct member names (as `Reflect.ownKeys` yields them) every relation member's own
      descriptor is stored under its name. */
  lemma DistinctNamesKeepEveryDescriptor(naming: Naming, owner: Nullable, members: seq<Member>)
    requires forall i, j :: 0 <= i < j < |members| ==> members[i].name != members[j].name
    ensures forall i :: 0 <= i < |members| && IsRelationMember(members[i]) ==>
      members[i].name in RelationMap(naming, owner, members)
      && RelationMap(naming, owner, members)[members[i].name] == Describe(naming, owner, members[i])
  {
    RelationMapKeys(naming, owner, members);
    RelationMapValues(naming, owner, members);
    forall i | 0 <= i < |members| && IsRelationMember(members[i])
      ensures members[i].name in RelationMap(naming, owner, members)
      ensures RelationMap(naming, owner, members)[members[i].name] == Describe(naming, owner, members[i])
    {
      var k := members[i].name;
      assert k in RelationMap(naming, owner, members);
      var last :| 0 <= last < |members| && members[last].name == k
        && RelationMap(naming, owner, members)[k] == Describe(naming, owner, members[last]);
      assert last == i;
    }
  }

  // ---------------------------------------------------------------------------------------------
  // Properties of one descriptor

  /** A descriptor is named by its member and belongs to the owning model; a `belongsTo` gets
      `keyFrom = snakeCase(modelToName + "_id")` and no `keyTo`, every other type gets
      `keyTo = snakeCase(modelFromName + "_id")` and no `keyFrom`, so exactly one key is set; and
      `through` holds exactly when a through-model name was captured. */
  lemma DescriptorShape(naming: Naming, owner: Nullable, m: Member)
    ensures var r := Describe(naming, owner, m);
      && r.name == m.name
      && r.modelFromName == owner
      && (r.kind == Str(BelongsTo) ==>
            r.keyFrom == Str(naming.snakeCase(TemplateText(r.modelToName) + "_id")) && r.keyTo == Null)
      && (r.kind != Str(BelongsTo) ==>
            r.keyTo == Str(naming.snakeCase(TemplateText(r.modelFromName) + "_id")) && r.keyFrom == Null)
      && (r.keyFrom.Str? != r.keyTo.Str?)
      && (r.through <==> r.throughModelName.Str?)
  {
    ThroughAgreesWithThroughModelName(m.text);
  }

  /** A null model name prints as "null" in the key it gives: a `belongsTo` with no captured target
      gets `keyFrom = snakeCase("null_id")`, and any other type with a null owner gets
      `keyTo = snakeCase("null_id")`. */
  lemma NullModelNameKeys(naming: Naming, owner: Nullable, m: Member)
    ensures var r := Describe(naming, owner, m);
      && (r.kind == Str(BelongsTo) && r.modelToName == Null ==> r.keyFrom == Str(naming.snakeCase("null_id")))
      && (r.kind != Str(BelongsTo) && owner == Null ==> r.keyTo == Str(naming.snakeCase("null_id")))
  {
    assert TemplateText(Null) + "_id" == "null_id";
  }

  // ---------------------------------------------------------------------------------------------
  // Properties of the resolver's result

  /** `constructor`, `tableName` and `idAttribute` are never keys of the result. */
  lemma ReservedNamesNeverResolved(naming: Naming, model: ModelSource, modelName: Option<Nullable>)
    ensures forall k :: k in Relations(naming, model, modelName) ==> k !in ReservedNames
    ensures "constructor" !in Relations(naming, model, modelName)
    ensures "tableName" !in Relations(naming, model, modelName)
    ensures "idAttribute" !in Relations(naming, model, modelName)
  {
    RelationMapKeys(naming, OwningModelName(naming, model.tableName, modelName), model.members);
  }

  /** A name is a key of the result exactly when a member of that name is not reserved and its text
      declares a relation; every other member is left out, without an error. */
  lemma ResolvedIffDeclaresRelation(naming: Naming, model: ModelSource, modelName: Option<Nullable>)
    ensures forall k :: k in Relations(naming, model, modelName) <==>
      exists i :: 0 <= i < |model.members| && model.members[i].name == k
        && k !in ReservedNames && DeclaresRelation(model.members[i].text)
  {
    RelationMapKeys(naming, OwningModelName(naming, model.tableName, modelName), model.members);
  }

  /** Every entry of the result is named by its key; its owning model is the option's model name or,
      without one, `upperFirst(singularize(toLower(tableName)))`; exactly one of its keys is set,
      by the key rule; and `through` holds exactly when it has a through-model name. */
  lemma ResolvedEntryShape(naming: Naming, model: ModelSource, modelName: Option<Nullable>)
    ensures forall k :: k in Relations(naming, model, modelName) ==>
      var r := Relations(naming, model, modelName)[k];
      && r.name == k
      && r.modelFromName == (if modelName.Some? then modelName.value
                             else Str(naming.upperFirst(naming.singularize(naming.toLower(model.tableName)))))
      && (r.kind == Str(BelongsTo) ==>
            r.keyFrom == Str(naming.snakeCase(TemplateText(r.modelToName) + "_id")) && r.keyTo == Null)
      && (r.kind != Str(BelongsTo) ==>
            r.keyTo == Str(naming.snakeCase(TemplateText(r.modelFromName) + "_id")) && r.keyFrom == Null)
      && (r.keyFrom.Str? != r.keyTo.Str?)
      && (r.through <==> r.throughModelName.Str?)
  {
    var owner := OwningModelName(naming, model.tableName, modelName);
    RelationMapValues(naming, owner, model.members);
    forall k | k in Relations(naming, model, modelName)
      ensures Relations(naming, model, modelName)[k].name == k
      ensures Relations(naming, model, modelName)[k].keyFrom.Str? != Relations(naming, model, modelName)[k].keyTo.Str?
      ensures Relations(naming, model, modelName)[k].through <==> Relations(naming, model, modelName)[k].throughModelName.Str?
    {
      var i :| 0 <= i < |model.members| && model.members[i].name == k
        && Relations(naming, model, modelName)[k] == Describe(naming, owner, model.members[i]);
      DescriptorShape(naming, owner, model.members[i]);
    }
  }

  /** The fields of every entry come from the text of the last relation member of that name: `type`
      from RELATIONSHIP_TYPE (not checked against the seven verbs), `modelToName` from
      MODEL_TO_NAME, `through` from THROUGH and `throughModelName` from THROUGH_MODEL_NAME. */
  lemma ResolvedEntryCaptures(naming: Naming, model: ModelSource, modelName: Option<Nullable>)
    ensures forall k :: k in Relations(naming, model, modelName) ==>
      exists i :: 0 <= i < |model.members| && model.members[i].name == k
        && IsRelationMember(model.members[i])
        && (forall j :: i < j < |model.members| && model.members[j].name == k ==> !IsRelationMember(model.members[j]))
        && var r := Relations(naming, model, modelName)[k];
           && r.kind == Capture(model.members[i].text, RelationshipType)
           && r.modelToName == Capture(model.members[i].text, ModelToName)
           && r.through == Test(model.members[i].text, Through)
           && r.throughModelName == Capture(model.members[i].text, ThroughModelName)
  {
    RelationMapValues(naming, OwningModelName(naming, model.tableName, modelName), model.members);
  }

  // ---------------------------------------------------------------------------------------------
  // A kept member whose `type` is null

  /** A member text whose inner block passes the RELATIONSHIP_TYPE test only through the match
      array's string form: `(return this.x` has no `(` after `this.`, but the comma-joined copy of
      the group that follows the block supplies one. */
  const NullTypeText: string := "){(return this.x}"

  /** The inner block of `NullTypeText` is the whole text, its group everything between the braces. */
  lemma NullTypeTextBlock()
    ensures Exec(NullTypeText, InnerFunctionBlock, 0) == Some(Match(0, 17, 2, 16))
  {
    var s := NullTypeText;
    assert |s| == 17 && s[0] == ')' && s[1] == '{' && s[16] == '}';
    assert SkipSpace(s, 1) == 1;
    assert LastIndexOf(s, '}', 2) == Some(16);
    assert MatchAt(s, 0, InnerFunctionBlock) == Some(Match(0, 17, 2, 16));
  }

  /** The characters of that block's match array that RELATIONSHIP_TYPE needs. */
  lemma NullTypeTextArrayChars()
    ensures var a := MatchArrayText(NullTypeText, Match(0, 17, 2, 16));
      && |a| == 32
      && a[3] == 'r' && a[4] == 'e' && a[5] == 't' && a[6] == 'u' && a[7] == 'r' && a[8] == 'n'
      && a[9] == ' ' && a[10] == 't' && a[11] == 'h' && a[12] == 'i' && a[13] == 's'
      && a[14] == '.' && a[15] == 'x' && a[18] == '('
  {
    var s := NullTypeText;
    assert s[3] == 'r' && s[4] == 'e' && s[5] == 't' && s[6] == 'u' && s[7] == 'r' && s[8] == 'n';
    assert s[9] == ' ' && s[10] == 't' && s[11] == 'h' && s[12] == 'i' && s[13] == 's';
    assert s[14] == '.' && s[15] == 'x' && s[2] == '(';
    MatchArrayTextChars(s, Match(0, 17, 2, 16));
  }

  /** RELATIONSHIP_TYPE matches any text that has `return this.x` at position 3 and a `(` at 18. */
  lemma ReturnThisAtThreeMatches(a: string)
    requires |a| == 32
    requires a[3] == 'r' && a[4] == 'e' && a[5] == 't' && a[6] == 'u' && a[7] == 'r' && a[8] == 'n'
    requires a[9] == ' ' && a[10] == 't' && a[11] == 'h' && a[12] == 'i' && a[13] == 's'
    requires a[14] == '.' && a[15] == 'x' && a[18] == '('
    ensures Test(a, RelationshipType)
  {
    assert a[3..9] == "return";
    assert a[10..14] == "this";
    assert SkipSpace(a, 10) == 10 && SkipSpace(a, 9) == 10;
    assert SkipSpace(a, 14) == 14 && SkipSpace(a, 15) == 15;
    assert ReturnThisDotAt(a, 3) && TypeNameStart(a, 3) == 15;
    assert MatchAt(a, 3, RelationshipType).Some?;
    TestIffSomeMatch(a, RelationshipType);
  }

  /** The text itself has no `(` after position 2, so RELATIONSHIP_TYPE matches nowhere in it. */
  lemma NullTypeTextHasNoType()
    ensures Capture(NullTypeText, RelationshipType) == Null
  {
    var s := NullTypeText;
    assert |s| == 17 && s[0] == ')' && s[1] == '{';
    assert forall d :: 3 <= d < |s| ==> s[d] != '(';
    forall p | 0 <= p <= |s| ensures MatchAt(s, p, RelationshipType).None? {
      RelationshipTypeNeedsLaterParen(s, p);
    }
  }

  /** So a member can be kept with a null `type`: it is not reserved, its text declares a relation,
      and its descriptor's `type` is null. */
  lemma KeptMemberWithNullType(naming: Naming, owner: Nullable)
    ensures IsRelationMember(Member("author", NullTypeText))
    ensures Describe(naming, owner, Member("author", NullTypeText)).kind == Null
  {
    NullTypeTextBlock();
    NullTypeTextArrayChars();
    ReturnThisAtThreeMatches(MatchArrayText(NullTypeText, Match(0, 17, 2, 16)));
    NullTypeTextHasNoType();
  }
}
