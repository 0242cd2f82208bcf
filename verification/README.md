# Verified models of the Cedar generators, policy analyzer and term bridge

This project models seven parts of the repository's Rust code and proves what they are for.

- **Common types** (`SchemaTypes`, `SchemaTypeMeaning`, `CommonTypeBindings`, `CommonTypesMeaning`). A schema without
  references gets common types: ids are bound to types that occur in it, each type with ids `id1 ... idn` becomes a
  chain of definitions `id1 = id2 = ... = idn = rewritten type`, and entity shapes and action contexts are rewritten
  to use them. Proved: the renaming loop ends in the first free id, every id is defined once and for its own type, no
  definition leads back to itself, whatever the bindings can replace is replaced, and for every outcome of the draws
  inlining the new schema gives the old one back exactly. The two functions that follow references therefore agree on
  both schemas, and `SchemaTypeMeaning` says which type and which attributes they find.
- **Policy analyzer** (`PolicyMeaning`, `PolicyComparison`, `PolicyFindings`, `PolicyReport`, `PolicyAnalyzer`).
  In each request environment a policy matches a subset of a nonempty set of requests, and the solver answers
  questions about these sets exactly. Proved: the vacuity fast paths give what the solver would, the findings kept
  under policy ids are exact after every pair, the extraction of classes ends for any iteration order with the
  semantic equivalence classes, the report is exact, and dropping everything the report lists, but for one member
  of each class, decides every request as before.
- **Entity hierarchy** (`Hierarchy`, `UidDraws`, `HierarchyGenerator`, `HierarchyAcyclicity`). The four redundant
  indexes agree however a hierarchy is built. Without a schema the parents never form a cycle; with one, no outcome
  has a cycle exactly if the allowed parents of the populated types have none apart from a type allowing itself.
  How many entities a type can get is described exactly, and so is when the number asked for is reached.
- **Attribute values** (`ExtensionFunctions`, `AttrValues`, `AttrValueProperties`). For every type and depth: when
  all outcomes conform to the type at every level and none is too deep, as an if-and-only-if, and exactly when a value
  can be higher than the depth asked for.
- **Expressions** (`Values`, `UnknownPool`, `TypeGenerator`, `Expressions`, `ExprTypes`, `ExprGenerator`,
  `ExprHeights`, `UntypedExprGenerator`). Over a whole run every unknown occurs once, was newly allocated, and is
  recorded with the type of its place and a value of that type; the expression has the type asked for. For both
  generators: how high an expression can be, and exactly when it keeps within the depth asked for.
- **Term bridge** (`OrderedCollections`, `FfiTerms`, `SymTerms`, `TermConversion`, `TermRoundTrip`, `TermMeaning`,
  `TermNormalForm`, `Numerals`, `DecimalText`). Each direction across the foreign boundary keeps what a term says, by
  the names and numerals each side writes; the symbolic compiler's terms survive the trip out and back, foreign terms
  are brought into a normal form by it, and the text of a decimal is exact for every 64-bit value.
- **Policy sets and request environments** (`PstPolicySets`, `RequestEnvs`). Generated policy sets are closed and
  without colliding ids, and the list of request environments is exactly the matching part of the schema's, sorted.

Every draw from the fuzzer's input is a free choice (`*` or `:|`), so a method's contract speaks of every input.
Where a lemma needs to say that an outcome is *possible*, it names one (`AllCandidates`, `FullestCase`).
`Wrappers`, `Cardinality` and `Integers` hold shared helpers.

## Where the code and its documentation differ

The model follows the code.

- The comment at `cedar-policy-generators/src/schema.rs:547-550` says that types inside records are replaced. An
  attribute's own type never is, only what is inside it (`AttributeTypeIsNotReplaced`).
- `attrs_from_attrs_or_context` panics on a shape that refers to a common type which is itself a reference. On a
  schema with added common types that happens exactly when the id chosen for the shape is not the last of its chain
  (`AttrsFromRewritten`), and it does happen (`AttrsCanPanic`). In the repository only a fuzz target calls
  `add_common_types` (`cedar-drt/fuzz/fuzz_targets/common-type-resolution.rs:55`), and it does not read the
  attributes of the result, so the panic needs another caller.
- `cedar-lean-cli/README.md:137-141` describes redundancy, shadowing and overriding by the match sets alone. The
  code leaves out some vacuous policies; `OverrideIsAsDocumentedIff` and `ShadowingIsAsDocumentedIff` say which, and
  `OverrideDiffersFromDocumentation` and `ShadowingDiffersFromDocumentation` give policies for which it matters.
- `generate_attr_value_for_type` documents its bound as the depth of the value. A call of `offset` with one level left
  is one higher (`OffsetExceedsBound`); `BoundIsExceededIff` gives the types, depths and widths for which that can
  happen. More depth can also make matters worse: a set of decimals is fine at depth 0, where it is empty, and too
  deep at depth 1 (`SafeIffAdequate`, `MoreDepthCanBeWorse`).
- `generate_expr` documents its bound as the depth of the expression. A string literal wrapped into a record so that
  it can be accessed makes it one higher, and for every depth but 0 that can happen (`DepthIsHeightIff`).
- `generate_expr_for_type` documents its bound in the same words. What follows the structure of the type is not
  counted, and the types of arguments grow, so an expression can be more than twice as high (`HeightIsBounded`,
  `AccessChain`); `KeepsDepthIff` gives the types and depths for which the bound holds.
- `NumEntities` (`cedar-policy-generators/src/hierarchy.rs:387-391`) promises a number of uids per type.
  Equal draws collapse, so there may be fewer. The promise always holds exactly if it is for at most one uid, and can
  hold exactly if there are as many different uids (`AlwaysAsPromisedIff`, `SometimesAsPromisedIff`, and the same for
  a range). Asking for an exact number with `Exactly` waits for it instead, and for a type with a single choice it
  waits for ever if more than one is asked for (`GenerateUids`).

## Model

| member | source | states |
|---|---|---|
| CommonTypeBindings.Bindings.AddBinding | cedar-policy-generators/src/schema.rs:520-545 | The renaming loop terminates with the first of `id`, `id___`, `id______`, ... that is not taken; exactly that id is added to `ids` and to the end of the type's list, and ids stay distinct across all types and equal the `ids` set |
| CommonTypeBindings.BindKeepsWellBound | cedar-policy-generators/src/schema.rs:500-507 | A fresh id keeps every id at one place of one type, and is the only id added |
| CommonTypeBindings.Bindings.RewriteType | cedar-policy-generators/src/schema.rs:551-607 | Set elements that are bound become a reference to one of their ids, everything else is kept at every level; no set of the result has a bound type as its element |
| CommonTypeBindings.RewrittenHasNoBoundElement | cedar-policy-generators/src/schema.rs:560-578 | Rewriting leaves no set anywhere whose element is bound |
| CommonTypeBindings.RewrittenAt | cedar-policy-generators/src/schema.rs:551-607 | Place by place: outside what is replaced the result has the form of the original, and a set there whose element is bound has a reference to one of the ids of that element |
| CommonTypeBindings.AttributeTypeIsNotReplaced | cedar-policy-generators/src/schema.rs:586-600 | Against the comment, an attribute's own type never becomes a reference |
| CommonTypeBindings.Bindings.RewriteRecordType | cedar-policy-generators/src/schema.rs:634-648 | A bound shape or context becomes a reference to one of its ids, any other is rewritten inside; the result is no bound type and has no set of one |
| CommonTypeBindings.Bindings.DefineChain | cedar-policy-generators/src/schema.rs:665-681 | The ids of one type are defined as a chain that ends in the rewritten type, for one id and for several |
| CommonTypeBindings.Bindings.ToCommonTypes | cedar-policy-generators/src/schema.rs:659-683 | Exactly the bound ids are defined, each in the chain of its own type, whatever the order of the bindings, and no definition has a set of a bound type |
| CommonTypeBindings.AddChain | cedar-policy-generators/src/schema.rs:664-682 | The definitions of one more type clobber no definition of another |
| CommonTypeBindings.BindType | cedar-policy-generators/src/schema.rs:687-722 | Only types that occur in the given one are bound, and no type loses an id |
| CommonTypesMeaning.DefinitionsReferBelow | cedar-policy-generators/src/schema.rs:547-607 | Every reference in the definition of an id is defined, and strictly lowers (size of the bound type, places left in its chain) |
| CommonTypesMeaning.CommonTypesAreAcyclic | cedar-policy-generators/src/schema.rs:659-683 | No path of references from definition to definition returns to its start |
| CommonTypesMeaning.RewrittenInlines | cedar-policy-generators/src/schema.rs:551-607 | Inlining a rewritten type gives the original exactly, with one lookup allowed per id of a smaller type |
| CommonTypesMeaning.ReferenceInlines | cedar-policy-generators/src/schema.rs:650-683 | A reference to any id of a chain inlines to the type the chain stands for |
| CommonTypesMeaning.WholeInlines | cedar-policy-generators/src/schema.rs:634-648 | A rewritten shape or context inlines to the original, looking up each common type at most once on a path |
| CommonTypesMeaning.AttrsFromRewritten | cedar-policy-generators/src/schema.rs:397-410 | The attributes of a rewritten shape can be read, and inline to the original's, if and only if the shape is not bound or the chosen id is the last of its chain; in terms of schema and shape, the code panics if and only if the shape refers to a definition that is itself a reference |
| CommonTypesMeaning.AttrsCanPanic | cedar-policy-generators/src/schema.rs:397-410 | A schema without references, and a rewriting of it with ids for the types of its attributes, on which reading the attributes of a shape panics |
| CommonTypesMeaning.RewriteEntityType | cedar-policy-generators/src/schema.rs:610-632 | Enumerated types are kept; of the others only the shape is rewritten |
| CommonTypesMeaning.RewriteAction | cedar-policy-generators/src/schema.rs:860-875 | Of an action only the context is rewritten |
| CommonTypesMeaning.RewriteEntityTypes | cedar-policy-generators/src/schema.rs:845-852 | Every entity type is rewritten under its own id |
| CommonTypesMeaning.RewriteActions | cedar-policy-generators/src/schema.rs:853-879 | Every action is rewritten under its own id |
| CommonTypesMeaning.BindAttributes | cedar-policy-generators/src/schema.rs:839-842 | Starting without bindings, only types that occur in the attributes are bound |
| CommonTypesMeaning.RewritingKeepsMeaning | cedar-policy-generators/src/schema.rs:835-898 | For any bindings, inlining every shape and context of the rewritten schema gives the original schema |
| CommonTypesMeaning.RewritingUsesBindings | cedar-policy-generators/src/schema.rs:835-898 | For any bindings, no shape or context of the rewritten schema is a bound type, and no set in one, or in a definition, has a bound element |
| CommonTypesMeaning.AddCommonTypes | cedar-policy-generators/src/schema.rs:835-898 | For all draws the new schema is the old one rewritten with some bindings of its attributes' types, has the same meaning, and has nothing left in it that the bindings could replace |
| SchemaTypes.ToTypeAfterInline | cedar-policy-generators/src/schema.rs:328-378 | Converting a type while following references is inlining first and converting after; what the inlined type means is `SchemaTypeMeaning.PlainTypeMeans` |
| SchemaTypes.AttrsAfterInline | cedar-policy-generators/src/schema.rs:414-461 | Collecting attributes commutes with inlining: the same names in the same order, with types that inline to the originals |
| SchemaTypes.InlineMonotone | cedar-policy-generators/src/schema.rs:311-324 | What resolves within some number of lookups resolves to the same with more |
| SchemaTypeMeaning.WrittenTypeReadsBack | cedar-policy-generators/src/schema.rs:328-378 | Every type of the generator, written as a schema type, is read back as itself |
| SchemaTypeMeaning.PlainTypeMeans | cedar-policy-generators/src/schema.rs:328-378 | A type without references fails if and only if an unknown extension occurs in it; otherwise it becomes the type that is written the same way, attributes with their names, order and `required`, and entity names with the namespace in front if and only if they have none |
| SchemaTypeMeaning.TypeMeans | cedar-policy-generators/src/schema.rs:328-378 | The same for a type with references, of what it inlines to |
| SchemaTypeMeaning.EitherMeans | cedar-policy-generators/src/schema.rs:359-366 | A name that may be an entity or a common type is a common type if one is defined under its last part, and an entity otherwise, in all three functions |
| SchemaTypeMeaning.AttrsFound | cedar-policy-generators/src/schema.rs:414-461 | For a type without references exactly the attributes of the records that occur in it are found, a record's own first and in order |
| CommonTypesMeaning.ResolutionAgrees | cedar-drt/fuzz/fuzz_targets/common-type-resolution.rs:74-91 | On an entity shape `schematype_to_type` agrees on both schemas and `attrs_in_schematype` gives the same attributes |
| CommonTypesMeaning.ContextResolutionAgrees | cedar-drt/fuzz/fuzz_targets/common-type-resolution.rs:74-91 | The same for an action's context |
| PolicyMeaning.AllowedBySinglePermit | cedar-lean-cli/src/analysis.rs:546-606 | A policy set with one permit allows what the permit matches, so comparing allowed sets compares match sets |
| PolicyComparison.PolicyVacuous | cedar-lean-cli/src/analysis.rs:505-528 | One result per environment: "all" if and only if the policy matches every request, "none" if and only if it matches none |
| PolicyComparison.PolicySetVacuous | cedar-lean-cli/src/analysis.rs:477-502 | The same for what a policy set allows |
| PolicyComparison.ComputePermitShadowingResult | cedar-lean-cli/src/analysis.rs:546-606 | With the vacuity fast paths, the result is the comparison of two match sets of which neither is empty |
| PolicyComparison.ComputeForbidShadowingResult | cedar-lean-cli/src/analysis.rs:647-698 | The same for forbid policies |
| PolicyComparison.ComputeForbidOverridesResult | cedar-lean-cli/src/analysis.rs:618-644 | A forbid overrides a permit if and only if neither is empty or full and the permit's match set is inside the forbid's |
| PolicyComparison.OverrideIsAsDocumentedIff | cedar-lean-cli/README.md:140 | What is reported is what is documented if and only if the permit is not empty and the forbid is not full |
| PolicyComparison.ShadowingIsAsDocumentedIff | cedar-lean-cli/README.md:138-141 | Redundancy is reported as documented if and only if not both are empty, shadowing if and only if both or neither are |
| PolicyComparison.OverrideDiffersFromDocumentation | cedar-lean-cli/README.md:140 | An empty permit, and a full forbid, for which the documented override holds and is not reported |
| PolicyComparison.ShadowingDiffersFromDocumentation | cedar-lean-cli/README.md:138-141 | Two empty permits that are not reported as redundant, and an empty one that is not reported as shadowed |
| PolicyComparison.ComparePolicySets | cedar-lean-cli/src/analysis.rs:894-936 | The status names how the allowed sets compare, and its examples lie in the difference |
| PolicyFindings.UpdateFindings | cedar-lean-cli/src/analysis.rs:702-722 | In place, the second policy is added in exactly the environments with the wanted result, and nothing else changes |
| PolicyFindings.RecordedIsExact | cedar-lean-cli/src/analysis.rs:702-722 | Recording one comparison makes findings that were exact for some ordered pairs exact for one more |
| PolicyFindings.AnalyzePair | cedar-lean-cli/src/analysis.rs:83-180 | For each combination of effects, both directions of the pair become exact in all four maps |
| PolicyFindings.AnalyzePairs | cedar-lean-cli/src/analysis.rs:83-180 | After the pair loop, for any order of the policies, all four maps are exact for all ordered pairs of two policies |
| PolicyReport.ExtractClasses | cedar-lean-cli/src/analysis.rs:216-234 | For any iteration order the loop terminates with every class of two or more ids once, and the classes are disjoint |
| PolicyReport.RedundancyIsEquivalence | cedar-lean-cli/src/analysis.rs:94-107 | The recorded redundancy sets of an environment form an equivalence, which is what the extraction relies on |
| PolicyReport.RedundancyClass | cedar-lean-cli/src/analysis.rs:219-225 | The class of a policy is the set of policies with its effect and its match set |
| PolicyReport.ExtractedAreExact | cedar-lean-cli/src/analysis.rs:216-234 | The extracted classes are exactly the semantic classes of at least two policies that match something |
| PolicyReport.RecordedSets | cedar-lean-cli/src/analysis.rs:285-316 | The entries of one environment list q for p if and only if the finding holds there |
| PolicyReport.CountPairs | cedar-lean-cli/src/analysis.rs:245-257 | The sum over the entries is the number of pairs they list |
| PolicyReport.NFindings | cedar-lean-cli/src/analysis.rs:245-257 | The number of findings is the number of classes plus the number of listed pairs |
| PolicyAnalyzer.PerSigFindingsNew | cedar-lean-cli/src/analysis.rs:209-243 | The classes and the three maps of an environment are exact |
| PolicyAnalyzer.CountedFindings | cedar-lean-cli/src/analysis.rs:326-330 | The number of findings is zero if and only if no finding of any kind holds between two policies |
| PolicyAnalyzer.OverallVacuity | cedar-lean-cli/src/analysis.rs:465-473 | Vacuity over all environments is "all" or "none" if and only if it is so in each; with no environment it is "all" |
| PolicyAnalyzer.PerSigReport | cedar-lean-cli/src/analysis.rs:285-330 | The report lists, in order, exactly the environments in which something is found |
| PolicyAnalyzer.AnalyzePolicySet | cedar-lean-cli/src/analysis.rs:58-196 | The whole report is exact: vacuous policies, vacuity of the set, and the findings of each environment |
| PolicyAnalyzer.MaximalAbove | cedar-lean-cli/src/analysis.rs:83-180 | Above every policy in the shadowing order is one that is not shadowed |
| PolicyAnalyzer.KeptInstead | cedar-lean-cli/src/analysis.rs:83-180 | A matching forbid, or a matching permit when no forbid matches, leads to a kept policy with its effect that matches too |
| PolicyAnalyzer.ActingOnTheReportIsSound | cedar-lean-cli/README.md:137-141 | Keeping at least one member of each class and every other policy not listed as shadowed or overridden decides every request as the whole set does |
| Hierarchy.IndicesAreLast | cedar-policy-generators/src/hierarchy.rs:36-45 | The index of a uid is the last place where it stands, and every uid has one |
| Hierarchy.FromUidsByTypeInSync | cedar-policy-generators/src/hierarchy.rs:92-111 | All four indexes describe the same entities, none of which has a parent |
| Hierarchy.FromUidsByTypeContents | cedar-policy-generators/src/hierarchy.rs:92-111 | Exactly the uids of the given buckets become entities, the types are those of the buckets in their order, and under each type stand the uids of its bucket in their order |
| Hierarchy.FlattenAt | cedar-policy-generators/src/hierarchy.rs:93-96 | The list of all uids is the buckets one after the other |
| Hierarchy.FromEntities | cedar-policy-generators/src/hierarchy.rs:304-325 | In whatever order the store is read, the indexes agree and the entities are those of the store |
| Hierarchy.ReplaceEntitiesInSync | cedar-policy-generators/src/hierarchy.rs:254-261 | New entities leave the indexes right if and only if they are stored under the same uids, each under its own |
| Hierarchy.UidsForTypeMembers | cedar-policy-generators/src/hierarchy.rs:265-280 | Exactly the uids of the type, of the entity's own type those after it in its bucket |
| HierarchyGenerator.GenerateUidWithType | cedar-policy-generators/src/hierarchy.rs:409-421 | A uid of the type, and one of the choices if it is enumerated |
| HierarchyGenerator.DrawUids | cedar-policy-generators/src/hierarchy.rs:446-463 | The draws in order of their first occurrence, equal ones collapsed |
| UidDraws.CountCanBeIff | cedar-policy-generators/src/hierarchy.rs:446-463 | The exact numbers of different uids that a number of draws can give, with or without choices |
| UidDraws.OneUidOnly | cedar-policy-generators/src/hierarchy.rs:458-463 | However many draws, there can be a single uid |
| UidDraws.AlwaysAsPromisedIff | cedar-policy-generators/src/hierarchy.rs:387-388 | Every outcome has the promised number if and only if at most one is promised |
| UidDraws.SometimesAsPromisedIff | cedar-policy-generators/src/hierarchy.rs:387-388 | Some outcome has the promised number if and only if the type is not enumerated or has as many different choices |
| UidDraws.AlwaysInRangeIff | cedar-policy-generators/src/hierarchy.rs:389-391 | Every outcome is within the promised range if and only if its lower end is at most one |
| UidDraws.SometimesInRangeIff | cedar-policy-generators/src/hierarchy.rs:389-391 | Some outcome is within the range if and only if there are as many different uids as its lower end |
| HierarchyGenerator.CountFitsIff | cedar-policy-generators/src/hierarchy.rs:445-479 | For each way of asking, the exact numbers of uids a type can get |
| HierarchyGenerator.GenerateUids | cedar-policy-generators/src/hierarchy.rs:445-479 | Uids that can come from the draws asked for, in a possible number; an error only for an exact number: when the input runs out, or, if and only if more than one is asked for of a single choice and there is input, because the loop never ends |
| HierarchyGenerator.GenerateExactly | cedar-policy-generators/src/hierarchy.rs:464-478 | Exactly the number of different uids, or one of the two errors |
| UidDraws.CollapseGrows | cedar-policy-generators/src/hierarchy.rs:446-463 | Later draws add at the end only, so uids stand in the order in which each was first drawn |
| HierarchyGenerator.OnlyOneUid | cedar-policy-generators/src/hierarchy.rs:468-476 | With a single choice no further draw adds a uid, so the loop repeats its state |
| HierarchyGenerator.ChooseParents | cedar-policy-generators/src/hierarchy.rs:490-525 | Parents are among the entity's candidates in its mode |
| HierarchyGenerator.AddParents | cedar-policy-generators/src/hierarchy.rs:485-637 | Each entity keeps its uid, has parents among its candidates, and the indexes still agree |
| HierarchyGenerator.Generate | cedar-policy-generators/src/hierarchy.rs:425-637 | The hierarchy has the types asked for in their order, and under each uids it can get in a number it can get, the input being used up from type to type; parents among the candidates, all indexes in sync |
| HierarchyAcyclicity.ArbitraryIsAcyclic | cedar-policy-generators/src/hierarchy.rs:506-524 | Without a schema no entity is its own ancestor |
| HierarchyAcyclicity.ArbitraryCandidates | cedar-policy-generators/src/hierarchy.rs:506-524 | Without a schema a candidate is any uid that comes later |
| HierarchyAcyclicity.SchemaCandidates | cedar-policy-generators/src/hierarchy.rs:494-505 | A candidate is an existing uid of an allowed type, later in its bucket if it is of the entity's own type |
| HierarchyAcyclicity.PathMakesWalk | cedar-policy-generators/src/hierarchy.rs:494-505 | The types along a path of parents make a walk; where the type never changes, the index in the bucket grows |
| HierarchyAcyclicity.WalkMakesPath | cedar-policy-generators/src/hierarchy.rs:494-505 | A cycle of types can be followed from entity to entity in a possible outcome |
| HierarchyAcyclicity.SchemaBasedIsAcyclicIff | cedar-policy-generators/src/hierarchy.rs:485-525 | With a schema every outcome is acyclic if and only if the populated types are, apart from self-loops |
| ExtensionFunctions.IndexByReturnType | cedar-policy-generators/src/abac.rs:585-603 | The index lists for every return type that occurs the functions with it, in table order, and is empty without type matching |
| ExtensionFunctions.ConstructorsByType | cedar-policy-generators/src/abac.rs:430-609 | The index built from the table has constructors for exactly the extension types, all with the arguments the generator makes; without type matching it is empty |
| ExtensionFunctions.TableOffersConstructors | cedar-policy-generators/src/abac.rs:430-579 | The table has the five constructors that attribute values and expressions call |
| AttrValues.ArbitraryExtConstructorCall | cedar-policy-generators/src/expr.rs:946-993 | The call is one of the constructors indexed under the type, with arguments as in the table; an error if there is none |
| AttrValues.GenerateAttrValueForType | cedar-policy-generators/src/expr.rs:1003-1079 | Every result is among the described outcomes, by which the properties below are proved |
| AttrValues.GenerateElements | cedar-policy-generators/src/expr.rs:1042-1059 | At most the allowed number of elements, or too deep because an element is |
| AttrValues.GenerateFields | cedar-policy-generators/src/expr.rs:1060-1077 | A value for each required field and some others in order, or too deep because a field is |
| AttrValueProperties.HeightIsAdequate | cedar-policy-generators/src/expr.rs:1003-1079 | A depth of at least the height of the type suffices |
| AttrValueProperties.AdequateIsSafe | cedar-policy-generators/src/expr.rs:1003-1079 | With enough depth nothing is too deep, and every value conforms at every level: required within present within declared keys, elements of the element type, calls as in the function table |
| AttrValueProperties.SafeIffAdequate | cedar-policy-generators/src/expr.rs:1003-1079 | No outcome is too deep or of the wrong type if and only if the depth suffices, by a condition on type, depth and width |
| AttrValueProperties.MoreDepthCanBeWorse | cedar-policy-generators/src/expr.rs:1030-1059 | For a set of decimals depth 0 suffices, depth 1 does not, and depth 2 does |
| AttrValueProperties.HeightIsBounded | cedar-policy-generators/src/expr.rs:1000-1002 | A value is at most one higher than the depth, and not higher unless it calls `offset` |
| AttrValueProperties.BoundIsExceededIff | cedar-policy-generators/src/expr.rs:1000-1002 | Some outcome is higher than the depth if and only if the type has, where one level is left, a datetime that the draws can reach; a condition on type, depth and width |
| AttrValueProperties.CanSucceedIff | cedar-policy-generators/src/expr.rs:1003-1079 | Some outcome is a value if and only if no required part is an extension type without depth left |
| AttrValueProperties.OffsetExceedsBound | cedar-policy-generators/src/expr.rs:967-982 | A value of height 2 at depth 1 |
| UnknownPool.UnknownPool.Alloc | cedar-policy-generators/src/abac.rs:105-109 | The new name is not in the pool, nothing is overwritten, and the pool's names stay the numbers below its size |
| ExprGenerator.ShouldGenerateUnknown | cedar-policy-generators/src/expr.rs:1330-1338 | Without the setting never an unknown; with it always one where no depth is left |
| ExprGenerator.GenerateUnknown | cedar-policy-generators/src/expr.rs:283-290 | The pool gains exactly the new unknown with its type and a value of that type within depth and width, and the expression is annotated with the type; there is none for extension types, and a failure leaves the pool alone |
| ExprGenerator.GenerateValueForType | cedar-policy-generators/src/expr.rs:1126-1191 | A value of the type at every level, said of values alone: 64-bit longs, entities of the type, sets of the element type with at most the allowed number of elements, records with declared keys, and, where the depth is adequate, all required ones; nested at most as deep as allowed; there is no value for extension types, and no other error than a failed draw |
| Values.ConformingLiteral | cedar-policy-generators/src/expr.rs:1126-1191 | A literal that conforms to a type has a value of the type |
| Values.HeldFits | cedar-policy-generators/src/expr.rs:1003-1079 | Every attribute value that can be generated has a value of its type within depth and width, complete where the depth is adequate |
| ExprGenerator.AnnotationFitsValue | cedar-policy-generators/src/abac.rs:775-799 | A value of a type is as the annotation of an unknown of that type says; an entity is of the type named there |
| Expressions.AnnotationsAgreeIff | cedar-policy-generators/src/abac.rs:775-799 | Two types have the same annotation if and only if they differ only inside sets and records |
| Expressions.AnnotationNames | cedar-policy-generators/src/abac.rs:775-799 | The name in the annotation of an extension or entity type is the one a schema uses for it |
| ExprGenerator.GenerateStructurally | cedar-policy-generators/src/expr.rs:751-802 | The expression follows the structure of the type: sets of elements, the required fields, constructor calls, literals and variables |
| TypeGenerator.GenerateType | cedar-policy-generators/src/types.rs:40-71 | A type within the depth, with declared entity types, and without sets or attributes where no depth is left |
| TypeGenerator.GenerateRecordType | cedar-policy-generators/src/types.rs:73-88 | A record with at most the allowed number of attributes, sorted and each name once |
| ExprGenerator.ChooseForBool | cedar-policy-generators/src/expr.rs:298-527 | Each branch for booleans is an operator with argument types it accepts |
| ExprGenerator.ChooseCommon | cedar-policy-generators/src/expr.rs:804-862 | So is each branch that every type has: conditional, call, access to an attribute or a tag |
| ExprGenerator.ChooseCall | cedar-policy-generators/src/expr.rs:915-937 | A function that returns the type, with its parameters, and with the setting some more of the last one |
| ExprGenerator.ChooseForRecord | cedar-policy-generators/src/expr.rs:672-682 | All required fields and some others, in order |
| ExprGenerator.ChooseOperator | cedar-policy-generators/src/expr.rs:291-743 | So is each branch of every type |
| ExprGenerator.GenerateArgs | cedar-policy-generators/src/expr.rs:804-862 | Arguments made one after the other share no unknown, and every entry the pool gains has a value that fits its type |
| ExprGenerator.GenerateExprForType | cedar-policy-generators/src/expr.rs:277-743 | The expression is derivable for its type at that depth with every unknown recorded for its place; the names it uses are the new ones, each once, and every entry the pool gains has a value that fits its type; without the setting the pool is left alone, and with it an expression for which no depth is left is an unknown, or fails for extension types |
| ExprHeights.HeightIsBounded | cedar-policy-generators/src/expr.rs:272-276 | An expression is at most as high as the structure of its type without depth, and otherwise twice the depth plus the height of the type, or three times the depth plus two |
| ExprHeights.AccessChain | cedar-policy-generators/src/expr.rs:830-845 | For every type and depth an expression twice as high as the depth plus the structure of the type, or two less with unknowns |
| ExprHeights.KeepsDepthIff | cedar-policy-generators/src/expr.rs:272-276 | No expression is higher than the depth if and only if a condition on depth, type and setting holds |
| ExprGenerator.UnknownsOccurOnce | cedar-policy-generators/src/expr.rs:283-290 | Over a whole run every unknown occurs exactly once, was not in the pool before, nothing was allocated that does not occur, and the expression has its type |
| Expressions.DerivableHasSort | cedar-policy-generators/src/expr.rs:277-743 | In a generated expression every operator has arguments of sorts it accepts, and accesses on entities give the sort of a declared attribute or tag |
| ExprTypes.DerivableHasType | cedar-policy-generators/src/expr.rs:277-743 | A generated expression has its type by typing rules on whole types: branches of a conditional of the same type, elements of the element type, records with required and declared attributes of their types, accesses of declared attributes and tags, calls with the parameter types |
| ExprTypes.ProductionIsTyped | cedar-policy-generators/src/expr.rs:291-743 | Each operator that can be chosen keeps the typing rules |
| UntypedExprGenerator.GenerateExpr | cedar-policy-generators/src/expr.rs:68-270 | The expression is one of the described outcomes; no attribute access has a string literal as its base, and the height is at most the bound, or one more if a literal was wrapped |
| UntypedExprGenerator.GeneratedIsBounded | cedar-policy-generators/src/expr.rs:68-270 | All described outcomes keep these bounds |
| UntypedExprGenerator.ArityIsAccepted | cedar-policy-generators/src/expr.rs:68-270 | An operator with a fixed number of arguments is generated with a number of them if and only if it accepts that many, and `like` only with its setting |
| UntypedExprGenerator.CallArityIsAccepted | cedar-policy-generators/src/expr.rs:197-222 | Unless calls may be arbitrary, a call has as many arguments as a function of that name has parameters |
| UntypedExprGenerator.NodeIsBounded | cedar-policy-generators/src/expr.rs:68-270 | An operator adds one level to the highest argument |
| UntypedExprGenerator.WrappedIsBounded | cedar-policy-generators/src/expr.rs:229-245 | The access to a wrapped literal has height 2 |
| UntypedExprGenerator.NegatedAccessExceeds | cedar-policy-generators/src/expr.rs:62-67 | For every depth but 0, an outcome that is one higher than it |
| UntypedExprGenerator.DepthIsHeightIff | cedar-policy-generators/src/expr.rs:62-67 | No outcome is higher than the depth if and only if the depth is 0 |
| TermRoundTrip.ThereAndBack | cedar-lean-ffi/src/datatypes.rs:726-758 | Every term of the compiler whose widths fit in a byte comes back as it was |
| TermRoundTrip.PanicsIffTooWide | cedar-lean-ffi/src/datatypes.rs:988-1020 | The conversion to the boundary panics if and only if some width or zero-extend amount does not fit in a byte |
| TermRoundTrip.TypeThereAndBack | cedar-lean-ffi/src/datatypes.rs:815-850 | Types come back as they were |
| TermRoundTrip.OpThereAndBack | cedar-lean-ffi/src/datatypes.rs:937-977 | Operators come back as they were, patterns and uninterpreted functions included; that each direction keeps the operator is `TermMeaning.OpMeans` |
| TermRoundTrip.PrimThereAndBack | cedar-lean-ffi/src/datatypes.rs:862-899 | Literals come back as they were, addresses with their prefixes included |
| TermRoundTrip.Arrives | cedar-lean-ffi/src/datatypes.rs:726-758 | What a foreign term is converted to is a term the compiler's types can hold, with widths that fit in a byte |
| TermRoundTrip.NormalizeIsIdempotent | cedar-lean-ffi/src/datatypes.rs:614-1020 | A foreign term that converts can be converted back without a panic, means the same afterwards, and a second trip changes nothing |
| TermMeaning.OpMeans | cedar-lean-ffi/src/datatypes.rs:614-661 | Coming in, an operator becomes the one operator with its name and its parameters; the names are those it is deserialised by (`cedar-lean-ffi/src/datatypes.rs:268-349`) and those of the compiler (`cedar-lean/Cedar/SymCC/Op.lean:117-171`) |
| TermMeaning.TypeMeans | cedar-lean-ffi/src/datatypes.rs:771-802 | A type becomes the one type that says the same: record types with the last type of each attribute, entity types with their names |
| TermMeaning.PrimMeans | cedar-lean-ffi/src/datatypes.rs:663-724 | A literal becomes the one literal with its value: the number that its numeral spells cut to the width, the entity's type and id, the address of its version with its prefix |
| TermMeaning.TermMeans | cedar-lean-ffi/src/datatypes.rs:726-758 | A foreign term becomes the one valid term that says the same: the same operator on arguments in the same order, sets with the same members, records with the last value of each key |
| TermMeaning.ConvertsIff | cedar-lean-ffi/src/datatypes.rs:586-758 | A foreign term converts if and only if every numeral in it is a number of at least one bit, addresses and prefixes have their widths, and patterns are of characters |
| TermMeaning.ComesOutMeaningTheSame | cedar-lean-ffi/src/datatypes.rs:988-1020 | Going out, a term becomes a foreign term that says the same |
| TermMeaning.OpComesOutMeaningTheSame | cedar-lean-ffi/src/datatypes.rs:937-977 | Going out, an operator keeps its name and parameters |
| TermMeaning.PrimComesOutMeaningTheSame | cedar-lean-ffi/src/datatypes.rs:862-899 | Going out, a literal keeps its value |
| TermMeaning.TypeComesOutMeaningTheSame | cedar-lean-ffi/src/datatypes.rs:815-850 | Going out, a type keeps what it says |
| TermNormalForm.NormalizeFixesExactlyNormalTerms | cedar-lean-ffi/src/datatypes.rs:614-1020 | The trip leaves a foreign term as it is if and only if its sets and records are sorted and its numerals are the shortest ones that fit; it always ends in such a term |
| TermNormalForm.NormalStays | cedar-lean-ffi/src/datatypes.rs:726-758 | A normal term converts and comes back unchanged |
| TermNormalForm.ComesOutNormal | cedar-lean-ffi/src/datatypes.rs:988-1020 | What is converted to the boundary is normal |
| OrderedCollections.CollectMapSorted | cedar-lean-ffi/src/datatypes.rs:741-745 | A collected record is sorted by key and holds, for each key, the last entry with it |
| OrderedCollections.CollectSetSorted | cedar-lean-ffi/src/datatypes.rs:746-753 | A collected set is sorted without repetition and has the elements of the list |
| OrderedCollections.StringLessIff | cedar-lean-ffi/src/datatypes.rs:741-745 | Keys are ordered by their first difference, a proper prefix first |
| Numerals.PrintThenRead | cedar-lean-ffi/src/datatypes.rs:852-860 | A printed number has no leading zero and reads back as itself |
| Numerals.ReadThenPrint | cedar-lean-ffi/src/datatypes.rs:663-670 | A numeral without a leading zero is what its number prints as |
| DecimalText.RoundTrip | cedar-lean-ffi/src/datatypes.rs:381-390 | Reading the text at scale 10000 gives the value, for every 64-bit value, the minimum and those with whole part 0 included |
| DecimalText.TextShape | cedar-lean-ffi/src/datatypes.rs:381-390 | A sign exactly for negative values, a whole part without spurious leading zeros, four fraction digits |
| DecimalText.TextIsInjective | cedar-lean-ffi/src/datatypes.rs:381-390 | Different values have different texts |
| PstPolicySets.ArbitraryConstraint | cedar-policy-generators/src/pst.rs:247-297 | A constraint uses no slot but the one offered |
| PstPolicySets.ArbitraryActionConstraint | cedar-policy-generators/src/pst.rs:311-326 | Actions are of type `Action`, at most three in a list |
| PstPolicySets.ArbitraryAnnotations | cedar-policy-generators/src/pst.rs:390-399 | Annotation keys are numbered without a gap, so none replaces another |
| PstPolicySets.ArbitraryTemplateWithSlots | cedar-policy-generators/src/pst.rs:353-402 | At most as many slots as asked for, each where it belongs, and none in a static policy |
| PstPolicySets.NumberedIsNew | cedar-policy-generators/src/pst.rs:435-439 | An id from the counter is different from all earlier ones |
| PstPolicySets.SlottedTemplate | cedar-policy-generators/src/pst.rs:444-453 | The repaired template has a slot, and its own id |
| PstPolicySets.LinkLastTemplate | cedar-policy-generators/src/pst.rs:454-470 | Each link has a new id and values for exactly the slots of its template |
| PstPolicySets.TemplatesAndLinks | cedar-policy-generators/src/pst.rs:441-471 | All ids are different and from the counter, every template has a slot, every link names a template and fits it |
| PstPolicySets.StaticPolicies | cedar-policy-generators/src/pst.rs:473-483 | Static policies have no slot, and ids that nothing else has |
| PstPolicySets.CollectKeepsAll | cedar-policy-generators/src/pst.rs:485-489 | Collecting under ids loses no entry |
| PstPolicySets.ArbitraryPolicySet | cedar-policy-generators/src/pst.rs:426-490 | The policy set is closed and collision-free, with at most three templates, two links for each, and three static policies |
| RequestEnvs.ToRequestEnvs | cedar-lean-cli/src/util.rs:181-245 | Sorted, as a multiset exactly the schema's environments that agree with what is given: a principal type and a resource type that one action applies to; an error if and only if something is given and none agrees |
| RequestEnvs.CollectActions | cedar-lean-cli/src/util.rs:187-221 | The nested loops collect the agreeing environments, in the order of the enumeration |
| RequestEnvs.EnvsOfMembers | cedar-lean-cli/src/util.rs:187-221 | An environment is one of the schema's if and only if its action is one of the schema's and applies to both its principal and its resource type |
| RequestEnvs.AgreeingMembers | cedar-lean-cli/src/util.rs:187-221 | Skipping by component is filtering by agreement |
| RequestEnvs.SortIsSorted | cedar-lean-cli/src/util.rs:243 | The sorted list is a permutation |

## Left out

Outside the model:

- The solver, the Lean engine, foreign calls, files, printing and serialisation. The solver's checks are exact
  oracles (`Solver`), so its errors and time-outs are not modelled.
- Probabilities and sizes of draws; `arbitrary_loop` stands for any number within its bounds.
- `Schema::arbitrary` itself. Its output, types without references, is the precondition `Plain` of adding common
  types; a type that could be either an entity or a common type would be captured by a fresh id.
- `build_attributes_by_type`, source locations, annotations of schema items, and the attributes of actions, which
  are copied.
- Attributes and tags of entities in a generated hierarchy, and the clauses of policies and templates.
- The code of the symbolic compiler's crate. Reducing a number to its width, the order of terms (any strict total
  order) and the widths of address prefixes (5 and 7 bits, from `cedar-lean/Cedar/Spec/Ext/IPAddr.lean:33`) stand
  for it. Numerals with signs or underscores, which the big-number parser also takes, are not modelled.
- Validity of ids as Cedar identifiers: the parse in `add_binding` that cannot fail on what it is given.
- Library collections: a `BTreeMap` inside a recursive type is the list of its entries in key order, a hash map or
  an insertion-ordered map is a map together with a free choice of the iteration order where order matters, and the
  library sort is an insertion sort over any total order.

Weaker than the code or than a reader may expect:

- AttrsAfterInline: the resolvers carry a number of lookups because the code recurses through a map without a
  bound; `WholeInlines` shows that the number of common types is always enough on rewritten schemas.
- GenerateUids: how much input a draw uses is up to the library that supplies it; a draw with one possible result is
  taken to use none and every other one at least a byte, while there is any.
- GenerateExprForType: the chance of each branch is not modelled, nor that little input is what makes it follow the
  structure of the type early; it may do so at any time.
- GenerateExpr: the branches are a table of arities (`HasArity`), from which one is drawn.
- DerivableHasSort: an access to an attribute of a record may have any sort, because sorts do not say what is inside a
  record; `DerivableHasType` does.
- DerivableHasType: the context stands for any record type, and principal, action, resource and literal entities for
  any entity type, because the generator uses them so.
- BindType: which types get bound is up to the draws, so only the types that can be bound are stated.
