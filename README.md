# Xtend declaration registry, Xbase hover signatures and Xtext spell checking

This project models five pieces of the Xtend/Xtext tooling in Dafny and proves
properties about them.

- **Declarations** (`declarations.dfy`) models `CompilationUnitImpl`, the
  registry of declaration facades that an Xtend compilation unit hands to active
  annotation processors.
  - Nodes of the JVM type model and of the Xtend source model are values: an
    identity plus the variant the converters dispatch on.
  - Facades are objects of class `Facade`. Each one records the class of facade
    it is, the object it wraps and the unit that owns it.
  - `CompilationUnit` holds the single `identityCache` map. `Get`, the cache,
    runs a provider only for a node that is not yet a key, and stores whatever
    the provider gives, `null` included.
  - Each `to*` converter is a method whose provider body lives in `Apply`.
    Providers call other converters, so the cache is re-entered. The methods
    are mutually recursive and terminate on a provider rank.
  - Every cached converter's contract is the shared `Memoized` predicate plus
    what it builds. The two type parameter converters state the same cache
    behaviour through their `Result`, since their cast may fail after the
    lookup. `ToLightweightTypeReference` bypasses the cache and builds a fresh
    facade on every call. `Valid()` states the cache invariant:
    - an entry is `null` exactly for the unsupported variants (interfaces,
      annotation types, enumeration types, other JVM types, and Xtend type
      declarations that are not classes);
    - otherwise the entry is a facade of this unit whose class wraps the node's
      variant.
- **PrimitiveTypes** (`primitive_types.dfy`) models the kind table of
  `PrimitiveTypeImpl`.
- **HoverSignatures** (`hover_signatures.dfy`) models the signature strings of
  `XbaseDeclarativeHoverSignatureProvider`: the five `_signature` cases, the
  throws clause, and the fallback to labels.
- **HoverGenerics** (`hover_generics.dfy`) models `HoverGenericsResolver`. Its
  core is a model of Java's regex replace with `\b` word boundaries. The
  replacements of `replaceGenerics` then run one after another, one per bound
  type parameter.
- **SpellingReconcile** (`spelling_reconcile.dfy`) models
  `XtextSpellingReconcileStrategy`: the filter of partitions down to string
  literals and comments, and the gate that enables spell checking.
  `SpellingService.check` calls are recorded in `checkRequests`.

Collaborators outside this code are parameters of the model:
- label providers, `hoverUiStrings.parameters` and `uiStrings.parameters`;
- the type argument context of a feature call;
- the Java signature computed by JDT;
- `TextUtilities.computePartitioning`;
- the spelling preference;
- the type reference converter installed by `setXtendFile`.

A Java `null` is `None` of `Option`. A thrown exception that the model keeps is a
`Failure` of `Result`.

The converters `toTypeParameterDeclaration` and `toXtendTypeParameterDeclaration`
both key the cache by the same `JvmTypeParameter`. Whichever runs second finds the
other's facade, and the cast to its own facade class fails. The model keeps this
as `Failure(ClassCast)`, and `TypeParameterViewsConflict` states it.

## Model

| member | source | states |
|---|---|---|
| PrimitiveTypes.KindOf | plugins/org.eclipse.xtend.core/xtend-gen/org/eclipse/xtend/core/macro/declaration/PrimitiveTypeImpl.java:18-72 | a name has a kind exactly when it is one of the eight primitive keywords, and that kind's keyword is the name |
| PrimitiveTypes.KindOfKeyword | plugins/org.eclipse.xtend.core/xtend-gen/org/eclipse/xtend/core/macro/declaration/PrimitiveTypeImpl.java:23-70 | every kind is returned for its own keyword |
| PrimitiveTypes.KindOfInjective | plugins/org.eclipse.xtend.core/xtend-gen/org/eclipse/xtend/core/macro/declaration/PrimitiveTypeImpl.java:23-70 | two recognised names with the same kind are the same name |
| PrimitiveTypes.VoidHasNoKind | plugins/org.eclipse.xtend.core/xtend-gen/org/eclipse/xtend/core/macro/declaration/PrimitiveTypeImpl.java:71 | "void" falls through the switch to null |
| Declarations.Facade.PrimitiveKind | plugins/org.eclipse.xtend.core/xtend-gen/org/eclipse/xtend/core/macro/declaration/PrimitiveTypeImpl.java:18-78 | a primitive facade has a kind exactly when its delegate's identifier is a primitive keyword, and the kind's keyword is that identifier |
| Declarations.PrimitiveKindOnlyDependsOnIdentifier | plugins/org.eclipse.xtend.core/xtend-gen/org/eclipse/xtend/core/macro/declaration/PrimitiveTypeImpl.java:74-78 | primitive facades over the same identifier report the same kind |
| Declarations.Facade.PrimitiveName | plugins/org.eclipse.xtend.core/xtend-gen/org/eclipse/xtend/core/macro/declaration/PrimitiveTypeImpl.java:74-78 | the name a primitive facade switches on is the identifier of the primitive type it wraps |
| Declarations.ToVisibility | plugins/org.eclipse.xtend.core/xtend-gen/org/eclipse/xtend/core/macro/declaration/CompilationUnitImpl.java:177-205 | each JVM visibility maps to the visibility of the same name |
| Declarations.ToVisibilityBijective | plugins/org.eclipse.xtend.core/xtend-gen/org/eclipse/xtend/core/macro/declaration/CompilationUnitImpl.java:177-205 | the mapping is one-to-one and every visibility is reached |
| Declarations.Builds | plugins/org.eclipse.xtend.core/xtend-gen/org/eclipse/xtend/core/macro/declaration/CompilationUnitImpl.java:207-583 | a provider yields null exactly for the unsupported variants; otherwise the facade class it builds wraps the node's variant |
| Declarations.ConvertersAgree | plugins/org.eclipse.xtend.core/xtend-gen/org/eclipse/xtend/core/macro/declaration/CompilationUnitImpl.java:213-217 | converters that accept the same node build the same facade class, except for type parameters, where they differ only as JVM versus Xtend type parameter facades |
| Declarations.FilterKind | plugins/org.eclipse.xtend.core/xtend-gen/org/eclipse/xtend/core/macro/declaration/CompilationUnitImpl.java:109-114 | the filtered list is no longer than the input and holds only facades of the requested class |
| Declarations.FilterKindConcat | plugins/org.eclipse.xtend.core/xtend-gen/org/eclipse/xtend/core/macro/declaration/CompilationUnitImpl.java:109-114 | filtering a concatenation is concatenating the filtered parts, so the order is kept |
| Declarations.FilterKindMembers | plugins/org.eclipse.xtend.core/xtend-gen/org/eclipse/xtend/core/macro/declaration/CompilationUnitImpl.java:109-114 | a facade is in the filtered list exactly when it is in the input and of the requested class |
| Declarations.DeclaredTypes | plugins/org.eclipse.xtend.core/xtend-gen/org/eclipse/xtend/core/macro/declaration/CompilationUnitImpl.java:116-120 | the filter by JvmDeclaredType: everything it keeps is a declared type |
| Declarations.DeclaredTypesMembers | plugins/org.eclipse.xtend.core/xtend-gen/org/eclipse/xtend/core/macro/declaration/CompilationUnitImpl.java:116-120 | a node is among the declared types exactly when it is in the contents and is a declared type |
| Declarations.Facade.constructor | plugins/org.eclipse.xtend.core/xtend-gen/org/eclipse/xtend/core/macro/declaration/CompilationUnitImpl.java:232-239 | a new facade records its class, its delegate and its compilation unit |
| Declarations.CompilationUnit.constructor | plugins/org.eclipse.xtend.core/xtend-gen/org/eclipse/xtend/core/macro/declaration/CompilationUnitImpl.java:139-155 | a new unit has no file, no converter and an empty cache |
| Declarations.CompilationUnit.SetXtendFile | plugins/org.eclipse.xtend.core/xtend-gen/org/eclipse/xtend/core/macro/declaration/CompilationUnitImpl.java:157-164 | records the file and the converter and leaves the cache alone; the package name is then the file's |
| Declarations.CompilationUnit.PackageName | plugins/org.eclipse.xtend.core/xtend-gen/org/eclipse/xtend/core/macro/declaration/CompilationUnitImpl.java:90-94 | the package name is the one declared by the unit's Xtend file |
| Declarations.CompilationUnit.DocComment | plugins/org.eclipse.xtend.core/xtend-gen/org/eclipse/xtend/core/macro/declaration/CompilationUnitImpl.java:85-88 | always fails with an unsupported-operation error |
| Declarations.CompilationUnit.Get | plugins/org.eclipse.xtend.core/xtend-gen/org/eclipse/xtend/core/macro/declaration/CompilationUnitImpl.java:166-175 | a key returns its stored value, null included, and the cache is unchanged; a new node gets what its provider builds, a fresh facade or null, stored under the node |
| Declarations.CompilationUnit.Apply | plugins/org.eclipse.xtend.core/xtend-gen/org/eclipse/xtend/core/macro/declaration/CompilationUnitImpl.java:207-583 | each provider builds the facade class `Builds` names, fresh and delegating to the node; at most the node itself is added to the cache while it runs |
| Declarations.CompilationUnit.ToType | plugins/org.eclipse.xtend.core/xtend-gen/org/eclipse/xtend/core/macro/declaration/CompilationUnitImpl.java:207-263 | memoized; declared types go to toTypeDeclaration, type parameters to toTypeParameterDeclaration, void and primitive types get their facades, any other type gives null |
| Declarations.CompilationUnit.ToTypeDeclaration | plugins/org.eclipse.xtend.core/xtend-gen/org/eclipse/xtend/core/macro/declaration/CompilationUnitImpl.java:265-314 | memoized; null exactly for interfaces, annotation types and enumeration types, otherwise a class facade over the node owned by this unit |
| Declarations.CompilationUnit.ToTypeParameterDeclaration | plugins/org.eclipse.xtend.core/xtend-gen/org/eclipse/xtend/core/macro/declaration/CompilationUnitImpl.java:316-332 | a new node gets a fresh JVM type parameter facade that is then cached; a cached facade of another class fails the cast |
| Declarations.CompilationUnit.ToParameterDeclaration | plugins/org.eclipse.xtend.core/xtend-gen/org/eclipse/xtend/core/macro/declaration/CompilationUnitImpl.java:334-350 | memoized; always a parameter facade over the node owned by this unit |
| Declarations.CompilationUnit.ToMemberDeclaration | plugins/org.eclipse.xtend.core/xtend-gen/org/eclipse/xtend/core/macro/declaration/CompilationUnitImpl.java:352-415 | memoized; declared types as in toTypeDeclaration, operations, constructors and fields get their facades over the node |
| Declarations.CompilationUnit.ToTypeReference | plugins/org.eclipse.xtend.core/xtend-gen/org/eclipse/xtend/core/macro/declaration/CompilationUnitImpl.java:417-435 | null gives null and leaves the cache unchanged; otherwise memoized, a type reference facade over the converter's lightweight form of the reference |
| Declarations.CompilationUnit.ToLightweightTypeReference | plugins/org.eclipse.xtend.core/xtend-gen/org/eclipse/xtend/core/macro/declaration/CompilationUnitImpl.java:437-455 | null gives null; otherwise a fresh type reference facade on every call, without the cache |
| Declarations.CompilationUnit.ToXtendTypeDeclaration | plugins/org.eclipse.xtend.core/xtend-gen/org/eclipse/xtend/core/macro/declaration/CompilationUnitImpl.java:457-482 | memoized; null exactly for what is not an Xtend class, otherwise an Xtend class facade over the node |
| Declarations.CompilationUnit.ToXtendMemberDeclaration | plugins/org.eclipse.xtend.core/xtend-gen/org/eclipse/xtend/core/macro/declaration/CompilationUnitImpl.java:484-547 | memoized; type declarations as in toXtendTypeDeclaration, functions, constructors and fields get their facades over the node |
| Declarations.CompilationUnit.ToXtendParameterDeclaration | plugins/org.eclipse.xtend.core/xtend-gen/org/eclipse/xtend/core/macro/declaration/CompilationUnitImpl.java:549-565 | memoized; always an Xtend parameter facade over the node owned by this unit |
| Declarations.CompilationUnit.ToXtendTypeParameterDeclaration | plugins/org.eclipse.xtend.core/xtend-gen/org/eclipse/xtend/core/macro/declaration/CompilationUnitImpl.java:567-583 | a new node gets a fresh Xtend type parameter facade that is then cached; a cached facade of another class fails the cast |
| Declarations.CompilationUnit.SourceTypeDeclarations | plugins/org.eclipse.xtend.core/xtend-gen/org/eclipse/xtend/core/macro/declaration/CompilationUnitImpl.java:96-107 | one entry per type declaration of the file, in order, equal to its cache entry; an entry is non-null exactly for Xtend classes; the cache only grows, and its new keys are exactly the file's type declarations |
| Declarations.CompilationUnit.SourceClassDeclarations | plugins/org.eclipse.xtend.core/xtend-gen/org/eclipse/xtend/core/macro/declaration/CompilationUnitImpl.java:109-114 | the Xtend class facades among the source type declarations, in their order; the new cache keys are exactly the file's type declarations |
| Declarations.CompilationUnit.GeneratedTypeDeclarations | plugins/org.eclipse.xtend.core/xtend-gen/org/eclipse/xtend/core/macro/declaration/CompilationUnitImpl.java:116-130 | one entry per declared type in the resource's contents, in order, equal to its cache entry; the cache only grows, and its new keys are exactly those declared types |
| Declarations.CompilationUnit.TypeDeclarationsOf | plugins/org.eclipse.xtend.core/xtend-gen/org/eclipse/xtend/core/macro/declaration/CompilationUnitImpl.java:121-130 | toTypeDeclaration over a list of declared types: one entry per type, in order, equal to its cache entry; the new cache keys are exactly those types |
| Declarations.CompilationUnit.GeneratedClassDeclarations | plugins/org.eclipse.xtend.core/xtend-gen/org/eclipse/xtend/core/macro/declaration/CompilationUnitImpl.java:132-137 | the JVM class facades among the generated type declarations, in their order; the new cache keys are exactly the declared types |
| Declarations.CompilationUnit.DeclaredTypeViewsShareFacade | plugins/org.eclipse.xtend.core/xtend-gen/org/eclipse/xtend/core/macro/declaration/CompilationUnitImpl.java:207-314 | toType, toTypeDeclaration and toMemberDeclaration give the identical object, or all null, for a declared type |
| Declarations.CompilationUnit.LookupIsIdempotent | plugins/org.eclipse.xtend.core/xtend-gen/org/eclipse/xtend/core/macro/declaration/CompilationUnitImpl.java:166-175 | a second lookup returns what the first gave, null included, and only the node itself becomes a key |
| Declarations.CompilationUnit.TypeParameterViewsConflict | plugins/org.eclipse.xtend.core/xtend-gen/org/eclipse/xtend/core/macro/declaration/CompilationUnitImpl.java:567-583 | on a new type parameter the JVM view succeeds, and the Xtend view of the same node then fails the cast |
| HoverSignatures.ThrowsDeclaration | plugins/org.eclipse.xtext.xbase.ui/src/org/eclipse/xtext/xbase/ui/hover/XbaseDeclarativeHoverSignatureProvider.java:135-149 | the loop builds the throws clause: empty without exceptions, else " throws " and the names joined by ", " |
| HoverSignatures.JoinNamesShape | plugins/org.eclipse.xtext.xbase.ui/src/org/eclipse/xtext/xbase/ui/hover/XbaseDeclarativeHoverSignatureProvider.java:139-147 | the joined names start with the first name and end with the last; their length is the names' lengths plus two characters for each separator between neighbours, none after the last |
| HoverSignatures.JoinNamesSplit | plugins/org.eclipse.xtext.xbase.ui/src/org/eclipse/xtext/xbase/ui/hover/XbaseDeclarativeHoverSignatureProvider.java:139-147 | joining two non-empty lists is joining each and putting ", " between them, so the separator stands exactly between neighbours |
| HoverSignatures.ThrowsClauseShape | plugins/org.eclipse.xtext.xbase.ui/src/org/eclipse/xtext/xbase/ui/hover/XbaseDeclarativeHoverSignatureProvider.java:135-149 | the clause is empty exactly without exceptions; otherwise it starts with " throws " and ends with the last exception's name |
| HoverSignatures.ReturnTypeText | plugins/org.eclipse.xtext.xbase.ui/src/org/eclipse/xtext/xbase/ui/hover/XbaseDeclarativeHoverSignatureProvider.java:91-99 | "void" without a return type, "Object" for the any type, otherwise the simple name |
| HoverSignatures.ArrangeParts | plugins/org.eclipse.xtext.xbase.ui/src/org/eclipse/xtext/xbase/ui/hover/XbaseDeclarativeHoverSignatureProvider.java:103-105 | type at the end is the declaration, " : " and the type; otherwise it is the type, a blank and the declaration; the first is two characters longer |
| HoverSignatures.DispatchSignature | plugins/org.eclipse.xtext.xbase.ui/src/org/eclipse/xtext/xbase/ui/hover/XbaseDeclarativeHoverSignatureProvider.java:86-133 | a `_signature` case answers exactly for generic types, operations, fields, constructors and formal parameters, and nothing for other elements |
| HoverSignatures.SimpleSignature | plugins/org.eclipse.xtext.xbase.ui/src/org/eclipse/xtext/xbase/ui/hover/XbaseDeclarativeHoverSignatureProvider.java:151-166 | an operation's simple signature is its name and parameters, a constructor's its name, a blank and its parameters, anything else its label |
| HoverSignatures.LabelForNonXbaseElement | plugins/org.eclipse.xtext.xbase.ui/src/org/eclipse/xtext/xbase/ui/hover/XbaseDeclarativeHoverSignatureProvider.java:81-84 | the class name, followed by " " and the label only when there is a label |
| HoverSignatures.InternalSignature | plugins/org.eclipse.xtext.xbase.ui/src/org/eclipse/xtext/xbase/ui/hover/XbaseDeclarativeHoverSignatureProvider.java:65-79 | a dispatch result wins; other identifiable elements get their label; anything else gets the class-name label |
| HoverSignatures.FallbackChain | plugins/org.eclipse.xtext.xbase.ui/src/org/eclipse/xtext/xbase/ui/hover/XbaseDeclarativeHoverSignatureProvider.java:65-79 | a dispatch result wins; other identifiable elements get their label; anything else gets a non-null class-name label |
| HoverSignatures.Signature | plugins/org.eclipse.xtext.xbase.ui/src/org/eclipse/xtext/xbase/ui/hover/XbaseDeclarativeHoverSignatureProvider.java:57-133 | the type comes first: an operation is its return type, a blank, then name, parameters and throws clause; a typed field is type, blank, name; a typed parameter is type, blank, name, the concatenation string and the container's simple signature; other elements as in getDerivedOrSourceSignature |
| HoverSignatures.DerivedOrSourceSignature | plugins/org.eclipse.xtext.xbase.ui/src/org/eclipse/xtext/xbase/ui/hover/XbaseDeclarativeHoverSignatureProvider.java:61-133 | the type comes last: an operation is its name, parameters and throws clause, then " : " and the return type; a typed field is name, " : ", type; a typed parameter is name, the concatenation string, the container's simple signature, " : " and type |
| HoverSignatures.GenericTypeSignature | plugins/org.eclipse.xtext.xbase.ui/src/org/eclipse/xtext/xbase/ui/hover/XbaseDeclarativeHoverSignatureProvider.java:86-88 | a generic type's signature is its simple name, in both orders |
| HoverSignatures.ConstructorIgnoresTypeAtEnd | plugins/org.eclipse.xtext.xbase.ui/src/org/eclipse/xtext/xbase/ui/hover/XbaseDeclarativeHoverSignatureProvider.java:118-121 | a constructor's signature is its name, a blank, its parameters and throws clause, in both orders |
| HoverSignatures.UntypedIsEmpty | plugins/org.eclipse.xtext.xbase.ui/src/org/eclipse/xtext/xbase/ui/hover/XbaseDeclarativeHoverSignatureProvider.java:108-133 | a field or parameter without a type has the empty signature |
| HoverSignatures.ImageTagLink | plugins/org.eclipse.xtext.xbase.ui/src/org/eclipse/xtext/xbase/ui/hover/XbaseDeclarativeHoverSignatureProvider.java:172-177 | empty exactly when there is no URL, otherwise an image tag around the URL |
| HoverGenerics.NoMatchUnchanged | plugins/org.eclipse.xtext.xbase.ui/src/org/eclipse/xtext/xbase/ui/hover/HoverGenericsResolver.java:57 | text with no match from the given position on comes back unchanged from that position |
| HoverGenerics.ReplaceFrom | plugins/org.eclipse.xtext.xbase.ui/src/org/eclipse/xtext/xbase/ui/hover/HoverGenericsResolver.java:57 | replacing a non-empty name by one of the same length keeps the length of the rest of the text |
| HoverGenerics.ReplaceWord | plugins/org.eclipse.xtext.xbase.ui/src/org/eclipse/xtext/xbase/ui/hover/HoverGenericsResolver.java:57 | `replaceAll` of the quoted name between `\b` boundaries: text without a whole-word match is unchanged, replacing a name by itself changes nothing, and a same-length replacement keeps the length |
| HoverGenerics.ReplaceLiteral | plugins/org.eclipse.xtext.xbase.ui/src/org/eclipse/xtext/xbase/ui/hover/HoverGenericsResolver.java:44 | `String.replace`: text without a literal match is unchanged, and replacing a string by itself changes nothing |
| HoverGenerics.ReplaceBySelf | plugins/org.eclipse.xtext.xbase.ui/src/org/eclipse/xtext/xbase/ui/hover/HoverGenericsResolver.java:44 | replacing a pattern by itself gives back the text from the given position, for whole-word and literal replacement alike |
| HoverGenerics.PrefixBeforeFirstMatchKept | plugins/org.eclipse.xtext.xbase.ui/src/org/eclipse/xtext/xbase/ui/hover/HoverGenericsResolver.java:57 | the text before the first match is copied as it is |
| HoverGenerics.OnlyWholeWordsReplaced | plugins/org.eclipse.xtext.xbase.ui/src/org/eclipse/xtext/xbase/ui/hover/HoverGenericsResolver.java:57 | a name that occurs only inside longer words is not replaced |
| HoverGenerics.WholeWordExample | plugins/org.eclipse.xtext.xbase.ui/src/org/eclipse/xtext/xbase/ui/hover/HoverGenericsResolver.java:57 | in "T Tx" the standalone T is replaced and the T of Tx is not |
| HoverGenerics.ReplacePairsSequential | plugins/org.eclipse.xtext.xbase.ui/src/org/eclipse/xtext/xbase/ui/hover/HoverGenericsResolver.java:51-59 | the pairs apply one after another, each on the previous output |
| HoverGenerics.CompletePairs | plugins/org.eclipse.xtext.xbase.ui/src/org/eclipse/xtext/xbase/ui/hover/HoverGenericsResolver.java:54 | no more pairs than given, and each kept pair has both its type parameter and its bound present |
| HoverGenerics.CompletePairsMembers | plugins/org.eclipse.xtext.xbase.ui/src/org/eclipse/xtext/xbase/ui/hover/HoverGenericsResolver.java:54 | a pair is kept exactly when it is in the list and both its sides are present |
| HoverGenerics.CompletePairsConcat | plugins/org.eclipse.xtext.xbase.ui/src/org/eclipse/xtext/xbase/ui/hover/HoverGenericsResolver.java:51-59 | selecting the complete pairs of a concatenation is concatenating the selections, so the order of the pairs is kept |
| HoverGenerics.IncompletePairsSkipped | plugins/org.eclipse.xtext.xbase.ui/src/org/eclipse/xtext/xbase/ui/hover/HoverGenericsResolver.java:54-58 | pairs with a missing side leave the output unchanged |
| HoverGenerics.NoCompletePairs | plugins/org.eclipse.xtext.xbase.ui/src/org/eclipse/xtext/xbase/ui/hover/HoverGenericsResolver.java:54 | with no bound present, no pair is complete |
| HoverGenerics.BoundTypePairs | plugins/org.eclipse.xtext.xbase.ui/src/org/eclipse/xtext/xbase/ui/hover/HoverGenericsResolver.java:65-74 | one pair per type parameter, in declaration order, with its bound argument |
| HoverGenerics.GetBoundTypePairs | plugins/org.eclipse.xtext.xbase.ui/src/org/eclipse/xtext/xbase/ui/hover/HoverGenericsResolver.java:65-74 | the loop yields one pair per type parameter, in declaration order, with its bound argument |
| HoverGenerics.ReplaceGenerics | plugins/org.eclipse.xtext.xbase.ui/src/org/eclipse/xtext/xbase/ui/hover/HoverGenericsResolver.java:47-63 | the output is the pairs' whole-word replacements applied in order; it is the input when the call is null or its feature is not an executable |
| HoverGenerics.UnboundParametersChangeNothing | plugins/org.eclipse.xtext.xbase.ui/src/org/eclipse/xtext/xbase/ui/hover/HoverGenericsResolver.java:51-59 | a call of an executable whose type parameters are all unbound leaves the signature as it is |
| HoverGenerics.ResolveSignatureInHtml | plugins/org.eclipse.xtext.xbase.ui/src/org/eclipse/xtext/xbase/ui/hover/HoverGenericsResolver.java:40-45 | every literal occurrence of the signature in the html is replaced by the resolved signature; without a call the html is unchanged |
| SpellingReconcile.ShouldProcess | plugins/org.eclipse.xtext.ui/src/org/eclipse/xtext/ui/editor/reconciler/XtextSpellingReconcileStrategy.java:83-90 | what is processed is a string literal or a comment, never a region of the default content type |
| SpellingReconcile.SpellableRegions | plugins/org.eclipse.xtext.ui/src/org/eclipse/xtext/ui/editor/reconciler/XtextSpellingReconcileStrategy.java:74-80 | the filtered regions are no more than the partitioner's |
| SpellingReconcile.SpellableRegionsMembers | plugins/org.eclipse.xtext.ui/src/org/eclipse/xtext/ui/editor/reconciler/XtextSpellingReconcileStrategy.java:74-80 | a region is kept exactly when it is in the input and is a string literal or comment |
| SpellingReconcile.Spellable | plugins/org.eclipse.xtext.ui/src/org/eclipse/xtext/ui/editor/reconciler/XtextSpellingReconcileStrategy.java:69-73 | a failed partitioning gives no regions; a successful one gives exactly its regions that are string literals or comments |
| SpellingReconcile.SpellableRegionsConcat | plugins/org.eclipse.xtext.ui/src/org/eclipse/xtext/ui/editor/reconciler/XtextSpellingReconcileStrategy.java:74-80 | filtering works piecewise, so the partitioner's order is kept |
| SpellingReconcile.SpellableRegionsKeepsAll | plugins/org.eclipse.xtext.ui/src/org/eclipse/xtext/ui/editor/reconciler/XtextSpellingReconcileStrategy.java:74-80 | the regions come back unchanged exactly when every one of them is to be processed |
| SpellingReconcile.SpellableRegionsIdempotent | plugins/org.eclipse.xtext.ui/src/org/eclipse/xtext/ui/editor/reconciler/XtextSpellingReconcileStrategy.java:74-80 | filtering twice is filtering once |
| SpellingReconcile.FailedPartitioningChecksNothing | plugins/org.eclipse.xtext.ui/src/org/eclipse/xtext/ui/editor/reconciler/XtextSpellingReconcileStrategy.java:69-73 | when the partitioner fails, the whole-document check covers no regions |
| SpellingReconcile.SpellingReconcileStrategy.constructor | plugins/org.eclipse.xtext.ui/src/org/eclipse/xtext/ui/editor/reconciler/XtextSpellingReconcileStrategy.java:36-45 | a new strategy has no document, no collector and no checks made |
| SpellingReconcile.SpellingReconcileStrategy.SpellingEnabled | plugins/org.eclipse.xtext.ui/src/org/eclipse/xtext/ui/editor/reconciler/XtextSpellingReconcileStrategy.java:92-94 | spelling is enabled only with a collector, and never when the preference is off |
| SpellingReconcile.SpellingReconcileStrategy.WholeDocumentRequest | plugins/org.eclipse.xtext.ui/src/org/eclipse/xtext/ui/editor/reconciler/XtextSpellingReconcileStrategy.java:63-64 | the check of the document with its collector covers only string literals and comments |
| SpellingReconcile.SpellingReconcileStrategy.ComputePartitioning | plugins/org.eclipse.xtext.ui/src/org/eclipse/xtext/ui/editor/reconciler/XtextSpellingReconcileStrategy.java:67-81 | the loop returns the partitioner's regions that are string literals or comments, in order, or none when partitioning fails |
| SpellingReconcile.SpellingReconcileStrategy.Reconcile | plugins/org.eclipse.xtext.ui/src/org/eclipse/xtext/ui/editor/reconciler/XtextSpellingReconcileStrategy.java:59-65 | ignoring the region, one check of the whole document from 0 to its length is made when spelling is enabled; otherwise, and always without a collector, nothing happens |
| SpellingReconcile.SpellingReconcileStrategy.SetDocument | plugins/org.eclipse.xtext.ui/src/org/eclipse/xtext/ui/editor/reconciler/XtextSpellingReconcileStrategy.java:48-52 | keeps the document and the new collector, then reconciles the whole document |

## Left out

- Null arguments to the converters are not modelled, except where the source tests for null (both `toTypeReference` overloads). A feature call and a label may also be null in the model.
- The facade classes' own attribute getters are not modelled. Only each facade's class, delegate and owning unit are.
- Get, ToTypeReference: they require an installed type reference converter when a type reference is added to the cache, and SourceTypeDeclarations, SourceClassDeclarations and PackageName require an Xtend file; before `setXtendFile` the source fails there with a null pointer exception (CompilationUnitImpl.java:92, :98, :426), which the model does not reproduce.
- ToTypeReference: the converter to lightweight references is a total function in the model, so the null test at the start of `toTypeReference(LightweightTypeReference)` (CompilationUnitImpl.java:440-443) is never met on the way from `toTypeReference(JvmTypeReference)`; `ToLightweightTypeReference` models that test for direct callers.
- ToLightweightTypeReference: the OwnedConverter/StandardTypeReferenceOwner conversion to lightweight references is an opaque function given to `SetXtendFile`.
- SetXtendFile: resolving the file's resource set is not modelled.
- SourceTypeDeclarations: the source returns a lazy mapped view of the file's type declarations, so facades are built as the list is read. The model builds them all when it is called. The facades are the same, and the cache contents match the source's once the whole list has been read.
- GeneratedTypeDeclarations: walking the EMF resource is replaced by a list of contents passed in. Its declared types are then filtered and converted in order.
- A `null` from `getPackage`, `getSimpleName`, `getName` or `getIdentifier` is not modelled; names are always strings.
- Exceptions thrown inside a `_signature` case, which the dispatcher's error handler turns into null, are not modelled. The `PolymorphicDispatcher` reflection is replaced by an explicit match on the element.
- The label provider, `hoverUiStrings.parameters`, `uiStrings.parameters`, `getImageTag`, `getURL` and the image registry are inputs. `getImageTagLink` is given the URL lookup's result.
- HoverGenerics.IsWordChar: Java's `\b` may also count non-ASCII letters and digits as word characters; the model uses ASCII letters, digits and `_`.
- Special characters in the replacement string of `replaceAll` (`$` and `\`) are not interpreted; the replacement is inserted literally.
- `getJavaSignature`, `getHeaderFlags` and JDT's label computation are not modelled; the Java signature is an input of `ResolveSignatureInHtml`.
- The type argument context that `getBoundTypePairs` obtains through the feature call request provider is an input function from type parameters to optional bounds.
- `SpellingService.check` is not modelled; each call is recorded in `checkRequests`. The spelling context, content type and progress monitor are not modelled.
- The `EditorsUI` preference for spelling is an input boolean.
- `TextUtilities.computePartitioning` is an input function of the document that answers regions or a bad-location failure.
- ComputePartitioning: a null document, which makes the source fail with a null pointer exception, is excluded by a precondition.
- `createSpellingProblemCollector` is an input of `SetDocument`, so a collector may be absent. `super.setDocument` is reduced to recording the document.
- BatchConstructorCallTypeTests is a test fixture of the batch type resolver, and MacroOutlineTreeProvider is an empty subclass; neither is part of this model.
