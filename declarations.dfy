/** The declaration registry of an Xtend compilation unit (CompilationUnitImpl).

    A compilation unit wraps nodes of the JVM type model and of the Xtend source
    model in declaration facades. Every converter goes through one private cache,
    keyed by the node, so a node is wrapped at most once per unit and later
    requests return the very same facade object, or the same `null`. */
module Declarations {
  import opened Wrappers
  import PrimitiveTypes

  /** The reference identity of a node of the foreign model. */
  type NodeId = nat

  /** The dynamic variant of a node; the converters dispatch on it. */
  datatype NodeKind =
    // the JVM type model
    | JvmGenericType(isInterface: bool)
    | JvmAnnotationType
    | JvmEnumerationType
    | JvmTypeParameter
    | JvmVoid
    | JvmPrimitiveType(identifier: string)
    | JvmOtherType              // any other JvmType: array types, unknown types
    | JvmOperation
    | JvmConstructor
    | JvmField
    | JvmFormalParameter
    | JvmTypeReference
    // the Xtend source model
    | XtendClass
    | XtendOtherTypeDeclaration // any XtendTypeDeclaration that is not a class
    | XtendFunction
    | XtendConstructor
    | XtendField
    | XtendParameter
  {
    predicate IsDeclaredType() { JvmGenericType? || JvmAnnotationType? || JvmEnumerationType? }
    predicate IsJvmType() { IsDeclaredType() || JvmTypeParameter? || JvmVoid? || JvmPrimitiveType? || JvmOtherType? }
    predicate IsJvmMember() { IsDeclaredType() || JvmOperation? || JvmConstructor? || JvmField? }
    predicate IsXtendTypeDeclaration() { XtendClass? || XtendOtherTypeDeclaration? }
    predicate IsXtendMember() { IsXtendTypeDeclaration() || XtendFunction? || XtendConstructor? || XtendField? }
  }

  datatype Node = Node(id: NodeId, kind: NodeKind)

  /** The variants no facade exists for: the converters answer `null` for them. */
  predicate Unsupported(k: NodeKind)
  {
    (k.JvmGenericType? && k.isInterface) || k.JvmAnnotationType? || k.JvmEnumerationType?
    || k.JvmOtherType? || k.XtendOtherTypeDeclaration?
  }

  // ---------------------------------------------------------------------------
  // Visibility

  datatype JvmVisibility = JvmDefault | JvmPrivate | JvmProtected | JvmPublic
  datatype Visibility = Default | Private | Protected | Public

  function JvmVisibilityName(v: JvmVisibility): string
  {
    match v
    case JvmDefault => "DEFAULT"
    case JvmPrivate => "PRIVATE"
    case JvmProtected => "PROTECTED"
    case JvmPublic => "PUBLIC"
  }

  function VisibilityName(v: Visibility): string
  {
    match v
    case Default => "DEFAULT"
    case Private => "PRIVATE"
    case Protected => "PROTECTED"
    case Public => "PUBLIC"
  }

  /** toVisibility: every JVM visibility has the local visibility of the same name. */
  function ToVisibility(v: JvmVisibility): (r: Visibility)
    ensures VisibilityName(r) == JvmVisibilityName(v)
  {
    if v == JvmDefault then Default
    else if v == JvmPrivate then Private
    else if v == JvmProtected then Protected
    else Public
  }

  /** toVisibility is one-to-one and onto. */
  lemma ToVisibilityBijective(a: JvmVisibility, b: JvmVisibility, r: Visibility)
    ensures ToVisibility(a) == ToVisibility(b) ==> a == b
    ensures exists v :: ToVisibility(v) == r
  {
    match r
    case Default => assert ToVisibility(JvmDefault) == r;
    case Private => assert ToVisibility(JvmPrivate) == r;
    case Protected => assert ToVisibility(JvmProtected) == r;
    case Public => assert ToVisibility(JvmPublic) == r;
  }

  // ---------------------------------------------------------------------------
  // Facades

  /** The facade classes a unit creates. */
  datatype FacadeKind =
    | JvmClassDeclaration
    | JvmTypeParameterDeclaration
    | JvmParameterDeclaration
    | JvmMethodDeclaration
    | JvmConstructorDeclaration
    | JvmFieldDeclaration
    | VoidType
    | PrimitiveType
    | TypeReference
    | XtendClassDeclaration
    | XtendMethodDeclaration
    | XtendConstructorDeclaration
    | XtendFieldDeclaration
    | XtendParameterDeclaration
    | XtendTypeParameterDeclaration

  /** Which node variant each facade class wraps (its delegate type); a type
      reference facade wraps the lightweight form of a JVM type reference. */
  predicate Wraps(f: FacadeKind, k: NodeKind)
  {
    match f
    case JvmClassDeclaration => k.JvmGenericType? && !k.isInterface
    case JvmTypeParameterDeclaration => k.JvmTypeParameter?
    case JvmParameterDeclaration => k.JvmFormalParameter?
    case JvmMethodDeclaration => k.JvmOperation?
    case JvmConstructorDeclaration => k.JvmConstructor?
    case JvmFieldDeclaration => k.JvmField?
    case VoidType => k.JvmVoid?
    case PrimitiveType => k.JvmPrimitiveType?
    case TypeReference => k.JvmTypeReference?
    case XtendClassDeclaration => k.XtendClass?
    case XtendMethodDeclaration => k.XtendFunction?
    case XtendConstructorDeclaration => k.XtendConstructor?
    case XtendFieldDeclaration => k.XtendField?
    case XtendParameterDeclaration => k.XtendParameter?
    case XtendTypeParameterDeclaration => k.JvmTypeParameter?
  }

  /** An opaque LightweightTypeReference produced by the unit's type converter. */
  datatype LightweightRef = LightweightRef(id: nat)

  datatype Delegate = NodeDelegate(node: Node) | LightweightDelegate(reference: LightweightRef)

  /** A declaration facade: its class, the object it wraps and its owning unit.
      The source assigns delegate and unit right after construction and never again. */
  class Facade {
    const kind: FacadeKind
    const delegate: Delegate
    const unit: CompilationUnit

    constructor (kind: FacadeKind, delegate: Delegate, unit: CompilationUnit)
      ensures this.kind == kind && this.delegate == delegate && this.unit == unit
    {
      this.kind := kind;
      this.delegate := delegate;
      this.unit := unit;
    }

    predicate IsPrimitive()
    {
      kind == PrimitiveType && delegate.NodeDelegate? && delegate.node.kind.JvmPrimitiveType?
    }

    /** PrimitiveTypeImpl.getName: the identifier of the wrapped primitive type. */
    function PrimitiveName(): (r: string)
      requires IsPrimitive()
      ensures r == delegate.node.kind.identifier
    {
      delegate.node.kind.identifier
    }

    /** PrimitiveTypeImpl.getKind: the kind named by getName, if any. */
    function PrimitiveKind(): (r: Option<PrimitiveTypes.Kind>)
      requires IsPrimitive()
      ensures r.Some? <==> delegate.node.kind.identifier in PrimitiveTypes.Keywords
      ensures r.Some? ==> PrimitiveTypes.Keyword(r.value) == delegate.node.kind.identifier
    {
      PrimitiveTypes.KindOf(PrimitiveName())
    }
  }

  /** Two primitive facades over the same identifier report the same kind. */
  lemma PrimitiveKindOnlyDependsOnIdentifier(f: Facade, g: Facade)
    requires f.IsPrimitive() && g.IsPrimitive()
    requires f.delegate.node.kind.identifier == g.delegate.node.kind.identifier
    ensures f.PrimitiveKind() == g.PrimitiveKind()
  {
  }

  // ---------------------------------------------------------------------------
  // Providers: the closures each converter hands to the cache

  datatype Provider =
    | TypeProvider                     // toType
    | TypeDeclarationProvider          // toTypeDeclaration
    | TypeParameterProvider            // toTypeParameterDeclaration
    | ParameterProvider                // toParameterDeclaration
    | MemberProvider                   // toMemberDeclaration
    | TypeReferenceProvider            // toTypeReference(JvmTypeReference)
    | XtendTypeDeclarationProvider     // toXtendTypeDeclaration
    | XtendMemberProvider              // toXtendMemberDeclaration
    | XtendParameterProvider           // toXtendParameterDeclaration
    | XtendTypeParameterProvider       // toXtendTypeParameterDeclaration

  /** The static parameter type of each converter: the node variants it can be given. */
  predicate Accepts(p: Provider, k: NodeKind)
  {
    match p
    case TypeProvider => k.IsJvmType()
    case TypeDeclarationProvider => k.IsDeclaredType()
    case TypeParameterProvider => k.JvmTypeParameter?
    case ParameterProvider => k.JvmFormalParameter?
    case MemberProvider => k.IsJvmMember()
    case TypeReferenceProvider => k.JvmTypeReference?
    case XtendTypeDeclarationProvider => k.IsXtendTypeDeclaration()
    case XtendMemberProvider => k.IsXtendMember()
    case XtendParameterProvider => k.XtendParameter?
    case XtendTypeParameterProvider => k.JvmTypeParameter?
  }

  /** The facade class a provider builds for a node variant (`None`: it yields null).
      A provider that delegates to another converter builds what that one builds. */
  function Builds(p: Provider, k: NodeKind): (r: Option<FacadeKind>)
    requires Accepts(p, k)
    decreases Rank(p)
    ensures r.None? <==> Unsupported(k)
    ensures r.Some? ==> Wraps(r.value, k)
  {
    match p
    case TypeProvider =>
      if k.IsDeclaredType() then Builds(TypeDeclarationProvider, k)
      else if k.JvmTypeParameter? then Builds(TypeParameterProvider, k)
      else if k.JvmVoid? then Some(VoidType)
      else if k.JvmPrimitiveType? then Some(PrimitiveType)
      else None
    case TypeDeclarationProvider =>
      if k.JvmGenericType? && !k.isInterface then Some(JvmClassDeclaration) else None
    case TypeParameterProvider => Some(JvmTypeParameterDeclaration)
    case ParameterProvider => Some(JvmParameterDeclaration)
    case MemberProvider =>
      if k.IsDeclaredType() then Builds(TypeDeclarationProvider, k)
      else if k.JvmOperation? then Some(JvmMethodDeclaration)
      else if k.JvmConstructor? then Some(JvmConstructorDeclaration)
      else Some(JvmFieldDeclaration)
    case TypeReferenceProvider => Some(TypeReference)
    case XtendTypeDeclarationProvider =>
      if k.XtendClass? then Some(XtendClassDeclaration) else None
    case XtendMemberProvider =>
      if k.IsXtendTypeDeclaration() then Builds(XtendTypeDeclarationProvider, k)
      else if k.XtendFunction? then Some(XtendMethodDeclaration)
      else if k.XtendConstructor? then Some(XtendConstructorDeclaration)
      else Some(XtendFieldDeclaration)
    case XtendParameterProvider => Some(XtendParameterDeclaration)
    case XtendTypeParameterProvider => Some(XtendTypeParameterDeclaration)
  }

  /** Every converter that accepts a declared type builds what toTypeDeclaration
      builds, and every converter that accepts an Xtend type declaration builds what
      toXtendTypeDeclaration builds; only type parameters are wrapped differently
      by different converters. */
  lemma ConvertersAgree(p: Provider, q: Provider, k: NodeKind)
    requires Accepts(p, k) && Accepts(q, k)
    ensures !k.JvmTypeParameter? ==> Builds(p, k) == Builds(q, k)
    ensures k.JvmTypeParameter? ==> Builds(p, k) != Builds(q, k) ==>
              {Builds(p, k).value, Builds(q, k).value} == {JvmTypeParameterDeclaration, XtendTypeParameterDeclaration}
  {
  }

  /** Termination measure for provider -> converter -> cache -> provider calls. */
  function Rank(p: Provider): nat
  {
    if p == TypeProvider || p == MemberProvider || p == XtendMemberProvider then 1 else 0
  }

  // ---------------------------------------------------------------------------
  // The compilation unit

  /** The parsed Xtend file a unit works on. */
  datatype XtendFile = XtendFile(packageName: string, xtendTypes: seq<Node>)

  predicate WellFormedFile(file: XtendFile)
  {
    forall i :: 0 <= i < |file.xtendTypes| ==> file.xtendTypes[i].kind.IsXtendTypeDeclaration()
  }

  datatype DeclarationError =
    | UnsupportedOperation   // an attribute left unimplemented
    | ClassCast              // the cached facade is not of the class a converter returns

  /** The cache after a call keeps every entry it had before. */
  ghost predicate Extends(before: map<Node, Option<Facade>>, after: map<Node, Option<Facade>>)
  {
    forall n :: n in before ==> n in after && after[n] == before[n]
  }

  /** Iterables.filter by facade class: the facades of class `k`, in order; nulls
      are dropped. */
  function FilterKind(decls: seq<Option<Facade>>, k: FacadeKind): (r: seq<Facade>)
    ensures |r| <= |decls|
    ensures forall i :: 0 <= i < |r| ==> r[i].kind == k
  {
    if decls == [] then []
    else (if decls[0].Some? && decls[0].value.kind == k then [decls[0].value] else [])
         + FilterKind(decls[1..], k)
  }

  /** Filtering works piecewise, so it keeps the order of the list. */
  lemma {:induction false} FilterKindConcat(a: seq<Option<Facade>>, b: seq<Option<Facade>>, k: FacadeKind)
    ensures FilterKind(a + b, k) == FilterKind(a, k) + FilterKind(b, k)
  {
    if a == [] {
      assert a + b == b;
    } else {
      assert (a + b)[0] == a[0];
      assert (a + b)[1..] == a[1..] + b;
      FilterKindConcat(a[1..], b, k);
    }
  }

  /** A facade is in the filtered list exactly when it is in the list and of class `k`. */
  lemma {:induction false} FilterKindMembers(decls: seq<Option<Facade>>, k: FacadeKind, f: Facade)
    ensures f in FilterKind(decls, k) <==> Some(f) in decls && f.kind == k
  {
    if decls != [] {
      FilterKindMembers(decls[1..], k, f);
      assert decls == [decls[0]] + decls[1..];
    }
  }

  /** The nodes of a list, as a set. */
  function Elements(nodes: seq<Node>): set<Node>
  {
    if nodes == [] then {}
    else
      assert nodes == nodes[..|nodes| - 1] + [nodes[|nodes| - 1]];
      Elements(nodes[..|nodes| - 1]) + {nodes[|nodes| - 1]}
  }

  /** Iterables.filter by JvmDeclaredType over the contents of a resource. */
  function DeclaredTypes(contents: seq<Node>): (r: seq<Node>)
    ensures forall i :: 0 <= i < |r| ==> r[i].kind.IsDeclaredType()
  {
    if contents == [] then []
    else (if contents[0].kind.IsDeclaredType() then [contents[0]] else []) + DeclaredTypes(contents[1..])
  }

  /** A node is among the declared types exactly when it is in the contents and
      is a declared type. */
  lemma {:induction false} DeclaredTypesMembers(contents: seq<Node>)
    ensures forall n :: n in DeclaredTypes(contents) <==> n in contents && n.kind.IsDeclaredType()
  {
    if contents != [] {
      DeclaredTypesMembers(contents[1..]);
      assert contents == [contents[0]] + contents[1..];
    }
  }

  class CompilationUnit {
    var xtendFile: Option<XtendFile>
    /** The converter to lightweight type references, installed by setXtendFile. */
    var typeRefConverter: Option<Node -> LightweightRef>
    /** identityCache: each node looked up so far, with what its first lookup gave. */
    var identityCache: map<Node, Option<Facade>>

    /** What a cache entry may hold: null exactly for the unsupported variants,
        otherwise a facade of this unit, of a class that wraps the node's variant,
        delegating to the node (a type reference facade to its lightweight form). */
    predicate Cached(n: Node, v: Option<Facade>)
    {
      match v
      case None => Unsupported(n.kind)
      case Some(f) =>
        && f.unit == this
        && Wraps(f.kind, n.kind)
        && (if f.kind == TypeReference then f.delegate.LightweightDelegate? else f.delegate == NodeDelegate(n))
    }

    ghost predicate Valid()
      reads this
    {
      && (forall n :: n in identityCache ==> Cached(n, identityCache[n]))
      && (xtendFile.Some? ==> WellFormedFile(xtendFile.value))
    }

    /** What a provider gives for a node it was not asked for before. */
    predicate Built(p: Provider, n: Node, r: Option<Facade>)
      requires Accepts(p, n.kind)
    {
      && (r.None? <==> Builds(p, n.kind).None?)
      && (r.Some? ==> r.value.kind == Builds(p, n.kind).value && Cached(n, r))
    }

    /** The memoization contract every cached converter keeps: a node already in
        the cache gets its stored value and the cache stays as it was; a new node
        gets a freshly built facade (or null), recorded under the node. */
    twostate predicate Memoized(p: Provider, n: Node, new r: Option<Facade>)
      reads this
      requires Accepts(p, n.kind)
    {
      if n in old(identityCache) then
        r == old(identityCache[n]) && identityCache == old(identityCache)
      else
        && identityCache == old(identityCache)[n := r]
        && Built(p, n, r)
        && (r.Some? ==> fresh(r.value))
    }

    constructor ()
      ensures Valid()
      ensures xtendFile.None? && typeRefConverter.None? && identityCache == map[]
    {
      xtendFile := None;
      typeRefConverter := None;
      identityCache := map[];
    }

    /** setXtendFile: records the file and installs the type reference converter
        built for the file's resource set. */
    method SetXtendFile(file: XtendFile, converter: Node -> LightweightRef)
      requires Valid() && WellFormedFile(file)
      modifies this`xtendFile, this`typeRefConverter
      ensures Valid()
      ensures xtendFile == Some(file) && typeRefConverter == Some(converter)
      ensures PackageName() == file.packageName
    {
      xtendFile := Some(file);
      typeRefConverter := Some(converter);
    }

    /** getPackageName: the package declared by the Xtend file. */
    function PackageName(): (r: string)
      reads this
      requires xtendFile.Some?
      ensures r == xtendFile.value.packageName
    {
      xtendFile.value.packageName
    }

    /** getDocComment is an auto-generated stub that always throws. */
    function DocComment(): (r: Result<string, DeclarationError>)
      ensures r.Failure? && r.error == UnsupportedOperation
    {
      Failure(UnsupportedOperation)
    }

    /** get: the cache itself. The provider runs only for a node not yet in the
        cache, and whatever it gives, null included, is stored. */
    method Get(n: Node, p: Provider) returns (r: Option<Facade>)
      requires Valid() && Accepts(p, n.kind)
      requires p == TypeReferenceProvider && n !in identityCache ==> typeRefConverter.Some?
      modifies this`identityCache
      decreases Rank(p), 1
      ensures Valid()
      ensures Memoized(p, n, r)
      ensures p == TypeReferenceProvider && n !in old(identityCache) ==>
                r.Some? && r.value.delegate == LightweightDelegate(typeRefConverter.value(n))
    {
      if n in identityCache {
        r := identityCache[n];
        return;
      }
      r := Apply(p, n);
      identityCache := identityCache[n := r];
    }

    /** The provider bodies: classify the node and build the matching facade, or
        hand it on to the converter for its narrower type. */
    method Apply(p: Provider, n: Node) returns (r: Option<Facade>)
      requires Valid() && Accepts(p, n.kind) && n !in identityCache
      requires p == TypeReferenceProvider ==> typeRefConverter.Some?
      modifies this`identityCache
      decreases Rank(p), 0
      ensures Valid()
      ensures identityCache == old(identityCache) || identityCache == old(identityCache)[n := r]
      ensures Built(p, n, r) && (r.Some? ==> fresh(r.value))
      ensures p == TypeReferenceProvider ==>
                r.Some? && r.value.delegate == LightweightDelegate(typeRefConverter.value(n))
    {
      match p
      case TypeProvider =>
        if n.kind.IsDeclaredType() {
          r := ToTypeDeclaration(n);
        } else if n.kind.JvmTypeParameter? {
          var d := ToTypeParameterDeclaration(n);
          r := Some(d.value);
        } else if n.kind.JvmVoid? {
          var f := new Facade(VoidType, NodeDelegate(n), this);
          r := Some(f);
        } else if n.kind.JvmPrimitiveType? {
          var f := new Facade(PrimitiveType, NodeDelegate(n), this);
          r := Some(f);
        } else {
          r := None;
        }
      case TypeDeclarationProvider =>
        if n.kind.JvmGenericType? && !n.kind.isInterface {
          var f := new Facade(JvmClassDeclaration, NodeDelegate(n), this);
          r := Some(f);
        } else {
          r := None;   // an interface, an annotation type or an enumeration type
        }
      case TypeParameterProvider =>
        var f := new Facade(JvmTypeParameterDeclaration, NodeDelegate(n), this);
        r := Some(f);
      case ParameterProvider =>
        var f := new Facade(JvmParameterDeclaration, NodeDelegate(n), this);
        r := Some(f);
      case MemberProvider =>
        if n.kind.IsDeclaredType() {
          r := ToTypeDeclaration(n);
        } else if n.kind.JvmOperation? {
          var f := new Facade(JvmMethodDeclaration, NodeDelegate(n), this);
          r := Some(f);
        } else if n.kind.JvmConstructor? {
          var f := new Facade(JvmConstructorDeclaration, NodeDelegate(n), this);
          r := Some(f);
        } else {
          var f := new Facade(JvmFieldDeclaration, NodeDelegate(n), this);
          r := Some(f);
        }
      case TypeReferenceProvider =>
        var lightweight := typeRefConverter.value(n);
        r := ToLightweightTypeReference(Some(lightweight));
      case XtendTypeDeclarationProvider =>
        if n.kind.XtendClass? {
          var f := new Facade(XtendClassDeclaration, NodeDelegate(n), this);
          r := Some(f);
        } else {
          r := None;
        }
      case XtendMemberProvider =>
        if n.kind.IsXtendTypeDeclaration() {
          r := ToXtendTypeDeclaration(n);
        } else if n.kind.XtendFunction? {
          var f := new Facade(XtendMethodDeclaration, NodeDelegate(n), this);
          r := Some(f);
        } else if n.kind.XtendConstructor? {
          var f := new Facade(XtendConstructorDeclaration, NodeDelegate(n), this);
          r := Some(f);
        } else {
          var f := new Facade(XtendFieldDeclaration, NodeDelegate(n), this);
          r := Some(f);
        }
      case XtendParameterProvider =>
        var f := new Facade(XtendParameterDeclaration, NodeDelegate(n), this);
        r := Some(f);
      case XtendTypeParameterProvider =>
        var f := new Facade(XtendTypeParameterDeclaration, NodeDelegate(n), this);
        r := Some(f);
    }

    /** toType: declared types and type parameters go to their own converters;
        void and primitive types get their facades; any other type gives null. */
    method ToType(n: Node) returns (r: Option<Facade>)
      requires Valid() && n.kind.IsJvmType()
      modifies this`identityCache
      decreases Rank(TypeProvider), 2
      ensures Valid()
      ensures Memoized(TypeProvider, n, r)
      ensures Cached(n, r)
    {
      r := Get(n, TypeProvider);
    }

    /** toTypeDeclaration: a class facade for a generic type that is not an
        interface; null for interfaces, annotation types and enumeration types. */
    method ToTypeDeclaration(n: Node) returns (r: Option<Facade>)
      requires Valid() && n.kind.IsDeclaredType()
      modifies this`identityCache
      decreases Rank(TypeDeclarationProvider), 2
      ensures Valid()
      ensures Memoized(TypeDeclarationProvider, n, r)
      ensures identityCache.Keys == old(identityCache).Keys + {n}
      ensures r.None? <==> Unsupported(n.kind)
      ensures r.Some? ==> r.value.kind == JvmClassDeclaration && r.value.delegate == NodeDelegate(n) && r.value.unit == this
    {
      r := Get(n, TypeDeclarationProvider);
    }

    /** toTypeParameterDeclaration. The cache is shared with
        toXtendTypeParameterDeclaration, which keys by the same node: if that one
        came first, the cast of the cached facade fails. */
    method ToTypeParameterDeclaration(n: Node) returns (r: Result<Facade, DeclarationError>)
      requires Valid() && n.kind.JvmTypeParameter?
      modifies this`identityCache
      decreases Rank(TypeParameterProvider), 2
      ensures Valid()
      ensures n !in old(identityCache) ==>
                r.Success? && fresh(r.value) && identityCache == old(identityCache)[n := Some(r.value)]
      ensures n in old(identityCache) ==> identityCache == old(identityCache)
      ensures n in identityCache && identityCache[n].Some?
      ensures r.Success? ==> identityCache[n] == Some(r.value) && r.value.kind == JvmTypeParameterDeclaration
      ensures r.Success? ==> r.value.delegate == NodeDelegate(n) && r.value.unit == this
      ensures r.Failure? ==> r.error == ClassCast && identityCache[n].value.kind != JvmTypeParameterDeclaration
    {
      var o := Get(n, TypeParameterProvider);
      if o.value.kind == JvmTypeParameterDeclaration {
        r := Success(o.value);
      } else {
        r := Failure(ClassCast);
      }
    }

    /** toParameterDeclaration: always a parameter facade for the node. */
    method ToParameterDeclaration(n: Node) returns (r: Facade)
      requires Valid() && n.kind.JvmFormalParameter?
      modifies this`identityCache
      decreases Rank(ParameterProvider), 2
      ensures Valid()
      ensures Memoized(ParameterProvider, n, Some(r))
      ensures r.kind == JvmParameterDeclaration && r.delegate == NodeDelegate(n) && r.unit == this
    {
      var o := Get(n, ParameterProvider);
      r := o.value;
    }

    /** toMemberDeclaration: declared types go to toTypeDeclaration; operations,
        constructors and fields get their facades. */
    method ToMemberDeclaration(n: Node) returns (r: Option<Facade>)
      requires Valid() && n.kind.IsJvmMember()
      modifies this`identityCache
      decreases Rank(MemberProvider), 2
      ensures Valid()
      ensures Memoized(MemberProvider, n, r)
      ensures r.None? <==> Unsupported(n.kind)
      ensures r.Some? ==> r.value.kind == Builds(MemberProvider, n.kind).value && r.value.delegate == NodeDelegate(n)
    {
      r := Get(n, MemberProvider);
    }

    /** toTypeReference(JvmTypeReference): null for null, without touching the
        cache; otherwise the memoized facade over the reference's lightweight form. */
    method ToTypeReference(d: Option<Node>) returns (r: Option<Facade>)
      requires Valid()
      requires d.Some? ==> d.value.kind.JvmTypeReference?
      requires d.Some? && d.value !in identityCache ==> typeRefConverter.Some?
      modifies this`identityCache
      decreases Rank(TypeReferenceProvider), 2
      ensures Valid()
      ensures d.None? ==> r.None? && identityCache == old(identityCache)
      ensures d.Some? ==> Memoized(TypeReferenceProvider, d.value, r)
      ensures d.Some? ==> r.Some? && r.value.kind == TypeReference && r.value.unit == this
      ensures d.Some? && d.value !in old(identityCache) ==>
                r.value.delegate == LightweightDelegate(typeRefConverter.value(d.value))
    {
      if d.None? {
        return None;
      }
      r := Get(d.value, TypeReferenceProvider);
    }

    /** toTypeReference(LightweightTypeReference): not memoized; each call builds a
        new facade. */
    method ToLightweightTypeReference(d: Option<LightweightRef>) returns (r: Option<Facade>)
      ensures d.None? ==> r.None?
      ensures d.Some? ==> r.Some? && fresh(r.value)
      ensures d.Some? ==> r.value.kind == TypeReference && r.value.delegate == LightweightDelegate(d.value) && r.value.unit == this
    {
      if d.None? {
        return None;
      }
      var f := new Facade(TypeReference, LightweightDelegate(d.value), this);
      r := Some(f);
    }

    /** toXtendTypeDeclaration: a class facade for an Xtend class, null otherwise. */
    method ToXtendTypeDeclaration(n: Node) returns (r: Option<Facade>)
      requires Valid() && n.kind.IsXtendTypeDeclaration()
      modifies this`identityCache
      decreases Rank(XtendTypeDeclarationProvider), 2
      ensures Valid()
      ensures Memoized(XtendTypeDeclarationProvider, n, r)
      ensures identityCache.Keys == old(identityCache).Keys + {n}
      ensures r.None? <==> !n.kind.XtendClass?
      ensures r.Some? ==> r.value.kind == XtendClassDeclaration && r.value.delegate == NodeDelegate(n) && r.value.unit == this
    {
      r := Get(n, XtendTypeDeclarationProvider);
    }

    /** toXtendMemberDeclaration: type declarations go to toXtendTypeDeclaration;
        functions, constructors and fields get their facades. */
    method ToXtendMemberDeclaration(n: Node) returns (r: Option<Facade>)
      requires Valid() && n.kind.IsXtendMember()
      modifies this`identityCache
      decreases Rank(XtendMemberProvider), 2
      ensures Valid()
      ensures Memoized(XtendMemberProvider, n, r)
      ensures r.None? <==> Unsupported(n.kind)
      ensures r.Some? ==> r.value.kind == Builds(XtendMemberProvider, n.kind).value && r.value.delegate == NodeDelegate(n)
    {
      r := Get(n, XtendMemberProvider);
    }

    /** toXtendParameterDeclaration: always a parameter facade for the node. */
    method ToXtendParameterDeclaration(n: Node) returns (r: Facade)
      requires Valid() && n.kind.XtendParameter?
      modifies this`identityCache
      decreases Rank(XtendParameterProvider), 2
      ensures Valid()
      ensures Memoized(XtendParameterProvider, n, Some(r))
      ensures r.kind == XtendParameterDeclaration && r.delegate == NodeDelegate(n) && r.unit == this
    {
      var o := Get(n, XtendParameterProvider);
      r := o.value;
    }

    /** toXtendTypeParameterDeclaration: the counterpart of
        toTypeParameterDeclaration on the same cache key. */
    method ToXtendTypeParameterDeclaration(n: Node) returns (r: Result<Facade, DeclarationError>)
      requires Valid() && n.kind.JvmTypeParameter?
      modifies this`identityCache
      decreases Rank(XtendTypeParameterProvider), 2
      ensures Valid()
      ensures n !in old(identityCache) ==>
                r.Success? && fresh(r.value) && identityCache == old(identityCache)[n := Some(r.value)]
      ensures n in old(identityCache) ==> identityCache == old(identityCache)
      ensures n in identityCache && identityCache[n].Some?
      ensures r.Success? ==> identityCache[n] == Some(r.value) && r.value.kind == XtendTypeParameterDeclaration
      ensures r.Success? ==> r.value.delegate == NodeDelegate(n) && r.value.unit == this
      ensures r.Failure? ==> r.error == ClassCast && identityCache[n].value.kind != XtendTypeParameterDeclaration
    {
      var o := Get(n, XtendTypeParameterProvider);
      if o.value.kind == XtendTypeParameterDeclaration {
        r := Success(o.value);
      } else {
        r := Failure(ClassCast);
      }
    }

    /** getSourceTypeDeclarations: toXtendTypeDeclaration applied to each type
        declaration of the Xtend file, in order. */
    method SourceTypeDeclarations() returns (decls: seq<Option<Facade>>)
      requires Valid() && xtendFile.Some?
      modifies this`identityCache
      ensures Valid()
      ensures Extends(old(identityCache), identityCache)
      ensures |decls| == |xtendFile.value.xtendTypes|
      ensures forall i :: 0 <= i < |decls| ==>
                xtendFile.value.xtendTypes[i] in identityCache && decls[i] == identityCache[xtendFile.value.xtendTypes[i]]
      ensures forall i :: 0 <= i < |decls| ==>
                (decls[i].Some? <==> xtendFile.value.xtendTypes[i].kind.XtendClass?)
      ensures identityCache.Keys == old(identityCache).Keys + Elements(xtendFile.value.xtendTypes)
    {
      var types := xtendFile.value.xtendTypes;
      decls := [];
      var i := 0;
      while i < |types|
        invariant 0 <= i <= |types|
        invariant Valid()
        invariant |decls| == i
        invariant Extends(old(identityCache), identityCache)
        invariant forall j :: 0 <= j < i ==> types[j] in identityCache && decls[j] == identityCache[types[j]]
        invariant forall j :: 0 <= j < i ==> (decls[j].Some? <==> types[j].kind.XtendClass?)
        invariant identityCache.Keys == old(identityCache).Keys + Elements(types[..i])
      {
        assert types[..i + 1] == types[..i] + [types[i]];
        var d := ToXtendTypeDeclaration(types[i]);
        decls := decls + [d];
        i := i + 1;
      }
      assert types[..i] == types;
    }

    /** getSourceClassDeclarations: the class facades among the source type
        declarations (`decls`), in their order. */
    method SourceClassDeclarations() returns (classes: seq<Facade>, ghost decls: seq<Option<Facade>>)
      requires Valid() && xtendFile.Some?
      modifies this`identityCache
      ensures Valid()
      ensures Extends(old(identityCache), identityCache)
      ensures |decls| == |xtendFile.value.xtendTypes|
      ensures forall i :: 0 <= i < |decls| ==>
                xtendFile.value.xtendTypes[i] in identityCache && decls[i] == identityCache[xtendFile.value.xtendTypes[i]]
      ensures identityCache.Keys == old(identityCache).Keys + Elements(xtendFile.value.xtendTypes)
      ensures classes == FilterKind(decls, XtendClassDeclaration)
    {
      var all := SourceTypeDeclarations();
      decls := all;
      classes := FilterKind(all, XtendClassDeclaration);
    }

    /** getGeneratedTypeDeclarations: toTypeDeclaration applied to the declared
        types among the contents of the file's resource, in order. */
    method GeneratedTypeDeclarations(contents: seq<Node>) returns (decls: seq<Option<Facade>>)
      requires Valid()
      modifies this`identityCache
      ensures Valid()
      ensures Extends(old(identityCache), identityCache)
      ensures |decls| == |DeclaredTypes(contents)|
      ensures forall i :: 0 <= i < |decls| ==>
                DeclaredTypes(contents)[i] in identityCache && decls[i] == identityCache[DeclaredTypes(contents)[i]]
      ensures identityCache.Keys == old(identityCache).Keys + Elements(DeclaredTypes(contents))
    {
      decls := TypeDeclarationsOf(DeclaredTypes(contents));
    }

    /** The transformation by toTypeDeclaration of a list of declared types. */
    method TypeDeclarationsOf(types: seq<Node>) returns (decls: seq<Option<Facade>>)
      requires Valid() && forall i :: 0 <= i < |types| ==> types[i].kind.IsDeclaredType()
      modifies this`identityCache
      ensures Valid()
      ensures Extends(old(identityCache), identityCache)
      ensures |decls| == |types|
      ensures forall i :: 0 <= i < |decls| ==> types[i] in identityCache && decls[i] == identityCache[types[i]]
      ensures identityCache.Keys == old(identityCache).Keys + Elements(types)
    {
      decls := [];
      var i := 0;
      while i < |types|
        invariant 0 <= i <= |types|
        invariant Valid()
        invariant |decls| == i
        invariant Extends(old(identityCache), identityCache)
        invariant forall j :: 0 <= j < i ==> types[j] in identityCache && decls[j] == identityCache[types[j]]
        invariant identityCache.Keys == old(identityCache).Keys + Elements(types[..i])
      {
        assert types[..i + 1] == types[..i] + [types[i]];
        var d := ToTypeDeclaration(types[i]);
        decls := decls + [d];
        i := i + 1;
      }
      assert types[..i] == types;
    }

    /** getGeneratedClassDeclarations: the class facades among the generated type
        declarations (`decls`), in their order. */
    method GeneratedClassDeclarations(contents: seq<Node>) returns (classes: seq<Facade>, ghost decls: seq<Option<Facade>>)
      requires Valid()
      modifies this`identityCache
      ensures Valid()
      ensures Extends(old(identityCache), identityCache)
      ensures |decls| == |DeclaredTypes(contents)|
      ensures forall i :: 0 <= i < |decls| ==>
                DeclaredTypes(contents)[i] in identityCache && decls[i] == identityCache[DeclaredTypes(contents)[i]]
      ensures identityCache.Keys == old(identityCache).Keys + Elements(DeclaredTypes(contents))
      ensures classes == FilterKind(decls, JvmClassDeclaration)
    {
      var all := GeneratedTypeDeclarations(contents);
      decls := all;
      classes := FilterKind(all, JvmClassDeclaration);
    }

    // -------------------------------------------------------------------------
    // What callers observe across converters

    /** toType, toTypeDeclaration and toMemberDeclaration, called one after the
        other, return one and the same object (or all null) for a declared type. */
    method DeclaredTypeViewsShareFacade(d: Node) returns (t: Option<Facade>, u: Option<Facade>, m: Option<Facade>)
      requires Valid() && d.kind.IsDeclaredType()
      modifies this`identityCache
      ensures Valid()
      ensures t == u == m
      ensures d in identityCache && identityCache[d] == t
      ensures d in old(identityCache) ==> identityCache == old(identityCache)
    {
      t := ToType(d);
      u := ToTypeDeclaration(d);
      m := ToMemberDeclaration(d);
    }

    /** A second lookup of a node returns what the first one gave, null included,
        and adds nothing to the cache. */
    method LookupIsIdempotent(n: Node) returns (first: Option<Facade>, second: Option<Facade>)
      requires Valid() && n.kind.IsJvmType()
      modifies this`identityCache
      ensures Valid()
      ensures first == second
      ensures identityCache.Keys == old(identityCache.Keys) + {n}
    {
      first := ToType(n);
      ghost var after := identityCache;
      second := ToType(n);
      assert identityCache == after;
    }

    /** The two type parameter converters share their cache key: on a fresh type
        parameter, the JVM view succeeds and the Xtend view then fails the cast. */
    method TypeParameterViewsConflict(n: Node) returns (jvm: Result<Facade, DeclarationError>, xtend: Result<Facade, DeclarationError>)
      requires Valid() && n.kind.JvmTypeParameter? && n !in identityCache
      modifies this`identityCache
      ensures Valid()
      ensures jvm.Success? && jvm.value.kind == JvmTypeParameterDeclaration
      ensures xtend == Failure(ClassCast)
    {
      jvm := ToTypeParameterDeclaration(n);
      xtend := ToXtendTypeParameterDeclaration(n);
    }
  }
}
