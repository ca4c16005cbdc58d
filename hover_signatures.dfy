/** Hover signatures of JVM elements (XbaseDeclarativeHoverSignatureProvider).

    The text of a signature is assembled from the element's names, its parameter
    list and its throws clause; the type goes first, or at the end after " : ".
    The parameter lists and element labels come from services outside this
    model and are taken as parameters. */
module HoverSignatures {
  import opened Wrappers

  /** A JVM type reference: its simple name, and whether it is the "any" type. */
  datatype TypeRef = TypeRef(simpleName: string, isAny: bool)

  /** The objects a hover can be asked about. */
  datatype Element =
    | GenericType(simpleName: string)
    | Operation(simpleName: string, returnType: Option<TypeRef>, exceptions: seq<TypeRef>)
    | Field(simpleName: string, fieldType: Option<TypeRef>)
    | Constructor(simpleName: string, exceptions: seq<TypeRef>)
    | FormalParameter(name: string, parameterType: Option<TypeRef>, container: Element)
    | OtherIdentifiable(simpleName: string)  // any other JvmIdentifiableElement
    | NonIdentifiable(eClassName: string)    // anything that is not a JvmIdentifiableElement,
                                             // such as a type reference or an Xtend element
  {
    predicate IsIdentifiable() { !NonIdentifiable? }
  }

  /** The injected services: hoverUiStrings.parameters, uiStrings.parameters and
      the label provider's getText (which may answer null). */
  datatype Services = Services(
    hoverParameters: Element -> string,
    parameters: Element -> string,
    labelText: Element -> Option<string>)

  /** JavaElementLabels.CONCAT_STRING */
  const ConcatString: string := " - "

  /** How Java's string concatenation renders a possibly-null string. */
  function Rendered(s: Option<string>): string
  {
    if s.Some? then s.value else "null"
  }

  // ---------------------------------------------------------------------------
  // The throws clause

  /** The exceptions' simple names joined by ", ". */
  function JoinNames(ts: seq<TypeRef>): string
  {
    if |ts| == 0 then ""
    else if |ts| == 1 then ts[0].simpleName
    else JoinNames(ts[..|ts| - 1]) + ", " + ts[|ts| - 1].simpleName
  }

  /** What getThrowsDeclaration produces: nothing without exceptions, otherwise
      " throws " and the joined names. */
  function ThrowsClause(exceptions: seq<TypeRef>): string
  {
    if |exceptions| == 0 then "" else " throws " + JoinNames(exceptions)
  }

  /** getThrowsDeclaration: appends each name, and a separator while more follow. */
  method ThrowsDeclaration(exceptions: seq<TypeRef>) returns (result: string)
    ensures result == ThrowsClause(exceptions)
  {
    result := "";
    if |exceptions| > 0 {
      result := result + " throws ";
      var i := 0;
      while i < |exceptions|
        invariant 0 <= i <= |exceptions|
        invariant result == " throws " + JoinNames(exceptions[..i]) + (if 0 < i < |exceptions| then ", " else "")
      {
        assert exceptions[..i + 1][..i] == exceptions[..i];
        result := result + exceptions[i].simpleName;
        i := i + 1;
        if i < |exceptions| {
          result := result + ", ";
        }
      }
      assert exceptions[..i] == exceptions;
    }
  }

  /** The sum of the lengths of the names. */
  function NamesLength(ts: seq<TypeRef>): nat
  {
    if |ts| == 0 then 0 else NamesLength(ts[..|ts| - 1]) + |ts[|ts| - 1].simpleName|
  }

  /** The joined names start with the first name, end with the last one (no
      trailing separator), and hold one two-character separator between neighbours. */
  lemma {:induction false} JoinNamesShape(ts: seq<TypeRef>)
    requires |ts| > 0
    ensures |JoinNames(ts)| == NamesLength(ts) + 2 * (|ts| - 1)
    ensures ts[0].simpleName <= JoinNames(ts)
    ensures |ts[|ts| - 1].simpleName| <= |JoinNames(ts)|
    ensures JoinNames(ts)[|JoinNames(ts)| - |ts[|ts| - 1].simpleName|..] == ts[|ts| - 1].simpleName
  {
    if |ts| == 1 {
      assert NamesLength(ts) == NamesLength(ts[..0]) + |ts[0].simpleName|;
    } else {
      var init := ts[..|ts| - 1];
      JoinNamesShape(init);
      assert init[0] == ts[0];
      var j := JoinNames(init);
      assert JoinNames(ts) == j + ", " + ts[|ts| - 1].simpleName;
      assert j <= JoinNames(ts);
    }
  }

  /** Joining two non-empty lists is joining each, with one ", " between them;
      so the separator stands between every two neighbours and nowhere else. */
  lemma {:induction false} JoinNamesSplit(a: seq<TypeRef>, b: seq<TypeRef>)
    requires |a| > 0 && |b| > 0
    ensures JoinNames(a + b) == JoinNames(a) + ", " + JoinNames(b)
    decreases |b|
  {
    var ab := a + b;
    assert ab[..|ab| - 1] == a + b[..|b| - 1];
    assert ab[|ab| - 1] == b[|b| - 1];
    if |b| > 1 {
      JoinNamesSplit(a, b[..|b| - 1]);
    } else {
      assert b[..|b| - 1] + [] == [];
      assert ab[..|ab| - 1] == a;
    }
  }

  /** The throws clause is empty exactly when there are no exceptions; otherwise it
      starts with " throws " and ends with the last exception's name. */
  lemma ThrowsClauseShape(exceptions: seq<TypeRef>)
    ensures ThrowsClause(exceptions) == "" <==> |exceptions| == 0
    ensures |exceptions| > 0 ==>
              " throws " <= ThrowsClause(exceptions)
              && |exceptions[|exceptions| - 1].simpleName| <= |ThrowsClause(exceptions)|
              && ThrowsClause(exceptions)[|ThrowsClause(exceptions)| - |exceptions[|exceptions| - 1].simpleName|..]
                 == exceptions[|exceptions| - 1].simpleName
  {
    if |exceptions| > 0 {
      JoinNamesShape(exceptions);
      var j := JoinNames(exceptions);
      assert ThrowsClause(exceptions) == " throws " + j;
      assert (" throws " + j)[|" throws " + j| - |exceptions[|exceptions| - 1].simpleName|..]
             == j[|j| - |exceptions[|exceptions| - 1].simpleName|..];
    }
  }

  // ---------------------------------------------------------------------------
  // The _signature overloads

  /** The return type text of an operation. */
  function ReturnTypeText(returnType: Option<TypeRef>): (r: string)
    ensures returnType.None? ==> r == "void"
    ensures returnType.Some? && returnType.value.isAny ==> r == "Object"
    ensures returnType.Some? && !returnType.value.isAny ==> r == returnType.value.simpleName
  {
    match returnType
    case None => "void"
    case Some(t) => if t.isAny then "Object" else t.simpleName
  }

  /** The order shared by operations, fields and parameters: the type text at the
      end after " : ", or in front followed by a blank. */
  function Arrange(declaration: string, typeText: string, typeAtEnd: bool): string
  {
    if typeAtEnd then declaration + " : " + typeText else typeText + " " + declaration
  }

  /** Both arrangements are built from the same two parts, and only the separator
      differs in length. */
  lemma ArrangeParts(declaration: string, typeText: string)
    ensures Arrange(declaration, typeText, true)[..|declaration|] == declaration
    ensures Arrange(declaration, typeText, true)[|declaration|..|declaration| + 3] == " : "
    ensures Arrange(declaration, typeText, true)[|declaration| + 3..] == typeText
    ensures Arrange(declaration, typeText, false)[..|typeText|] == typeText
    ensures Arrange(declaration, typeText, false)[|typeText|] == ' '
    ensures Arrange(declaration, typeText, false)[|typeText| + 1..] == declaration
    ensures |Arrange(declaration, typeText, true)| == |Arrange(declaration, typeText, false)| + 2
  {
    assert Arrange(declaration, typeText, true) == declaration + (" : " + typeText);
    assert Arrange(declaration, typeText, false) == typeText + (" " + declaration);
  }

  /** getSimpleSignature(EObject): the container of a parameter, briefly. */
  function SimpleSignature(container: Element, services: Services): (r: Option<string>)
    ensures container.Operation? ==> r == Some(container.simpleName + services.parameters(container))
    ensures container.Constructor? ==> r == Some(container.simpleName + " " + services.parameters(container))
    ensures !container.Operation? && !container.Constructor? ==> r == services.labelText(container)
  {
    match container
    case Operation(name, _, _) => Some(name + services.parameters(container))
    case Constructor(name, _) => Some(name + " " + services.parameters(container))
    case _ => services.labelText(container)
  }

  /** The polymorphic dispatch over the five _signature overloads; `None` when no
      overload applies. */
  function DispatchSignature(e: Element, typeAtEnd: bool, services: Services): (r: Option<string>)
    ensures r.Some? <==> !(e.OtherIdentifiable? || e.NonIdentifiable?)
  {
    match e
    case GenericType(name) => Some(name)
    case Operation(name, returnType, exceptions) =>
      Some(Arrange(name + services.hoverParameters(e) + ThrowsClause(exceptions), ReturnTypeText(returnType), typeAtEnd))
    case Field(name, fieldType) =>
      Some(if fieldType.None? then "" else Arrange(name, fieldType.value.simpleName, typeAtEnd))
    case Constructor(name, exceptions) =>
      Some(name + " " + services.hoverParameters(e) + ThrowsClause(exceptions))
    case FormalParameter(name, parameterType, container) =>
      Some(if parameterType.None? then ""
           else Arrange(name + ConcatString + Rendered(SimpleSignature(container, services)),
                        parameterType.value.simpleName, typeAtEnd))
    case OtherIdentifiable(_) => None
    case NonIdentifiable(_) => None
  }

  /** getLabelForNonXbaseElement: the class name, then the label if there is one. */
  function LabelForNonXbaseElement(e: Element, services: Services): (r: string)
    requires e.NonIdentifiable?
    ensures e.eClassName <= r
    ensures services.labelText(e).None? ==> r == e.eClassName
    ensures services.labelText(e).Some? ==> r[|e.eClassName|..] == " " + services.labelText(e).value
  {
    var text := services.labelText(e);
    e.eClassName + (if text.Some? then " " + text.value else "")
  }

  /** internalGetSignature: the dispatch result if there is one, else the label of
      an identifiable element, else the class name and label. */
  function InternalSignature(e: Element, typeAtEnd: bool, services: Services): (r: Option<string>)
    ensures DispatchSignature(e, typeAtEnd, services).Some? ==> r == DispatchSignature(e, typeAtEnd, services)
    ensures e.OtherIdentifiable? ==> r == services.labelText(e)
    ensures e.NonIdentifiable? ==> r == Some(LabelForNonXbaseElement(e, services))
  {
    var result := DispatchSignature(e, typeAtEnd, services);
    if result.Some? then result
    else if e.IsIdentifiable() then services.labelText(e)
    else Some(LabelForNonXbaseElement(e, services))
  }

  /** getDerivedOrSourceSignature: the type of an operation, a field or a
      parameter at the end, after " : ". */
  function DerivedOrSourceSignature(e: Element, services: Services): (r: Option<string>)
    ensures e.Operation? ==>
              r == Some(e.simpleName + services.hoverParameters(e) + ThrowsClause(e.exceptions)
                        + " : " + ReturnTypeText(e.returnType))
    ensures e.Field? && e.fieldType.Some? ==> r == Some(e.simpleName + " : " + e.fieldType.value.simpleName)
    ensures e.FormalParameter? && e.parameterType.Some? ==>
              r == Some(e.name + ConcatString + Rendered(SimpleSignature(e.container, services))
                        + " : " + e.parameterType.value.simpleName)
  {
    InternalSignature(e, true, services)
  }

  /** getSignature: the type of an operation, a field or a parameter in front,
      followed by a blank; every other element reads as in
      getDerivedOrSourceSignature. */
  function Signature(e: Element, services: Services): (r: Option<string>)
    ensures e.Operation? ==>
              r == Some(ReturnTypeText(e.returnType) + " "
                        + (e.simpleName + services.hoverParameters(e) + ThrowsClause(e.exceptions)))
    ensures e.Field? && e.fieldType.Some? ==> r == Some(e.fieldType.value.simpleName + " " + e.simpleName)
    ensures e.FormalParameter? && e.parameterType.Some? ==>
              r == Some(e.parameterType.value.simpleName + " "
                        + (e.name + ConcatString + Rendered(SimpleSignature(e.container, services))))
    ensures !e.Operation? && !e.Field? && !e.FormalParameter? ==> r == DerivedOrSourceSignature(e, services)
  {
    InternalSignature(e, false, services)
  }

  /** The fallback chain, case by case. */
  lemma FallbackChain(e: Element, typeAtEnd: bool, services: Services)
    ensures DispatchSignature(e, typeAtEnd, services).Some? ==>
              InternalSignature(e, typeAtEnd, services) == DispatchSignature(e, typeAtEnd, services)
    ensures e.OtherIdentifiable? ==> InternalSignature(e, typeAtEnd, services) == services.labelText(e)
    ensures e.NonIdentifiable? ==> InternalSignature(e, typeAtEnd, services).Some?
    ensures e.NonIdentifiable? && services.labelText(e).None? ==> InternalSignature(e, typeAtEnd, services) == Some(e.eClassName)
  {
  }

  /** A generic type's signature is its simple name, in both orders. */
  lemma GenericTypeSignature(name: string, services: Services)
    ensures Signature(GenericType(name), services) == Some(name)
    ensures DerivedOrSourceSignature(GenericType(name), services) == Some(name)
  {
  }

  /** A constructor signature does not depend on where the type would go. */
  lemma ConstructorIgnoresTypeAtEnd(name: string, exceptions: seq<TypeRef>, services: Services)
    ensures var e := Constructor(name, exceptions);
            && Signature(e, services) == DerivedOrSourceSignature(e, services)
            && Signature(e, services) == Some(name + " " + services.hoverParameters(e) + ThrowsClause(exceptions))
  {
  }

  /** An untyped field or parameter has the empty signature in both orders. */
  lemma UntypedIsEmpty(e: Element, typeAtEnd: bool, services: Services)
    requires (e.Field? && e.fieldType.None?) || (e.FormalParameter? && e.parameterType.None?)
    ensures InternalSignature(e, typeAtEnd, services) == Some("")
  {
  }

  // ---------------------------------------------------------------------------
  // Image tags

  /** getImageTagLink, given the URL getURL found for the descriptor (if any). */
  function ImageTagLink(url: Option<string>): (r: string)
    ensures url.None? <==> r == ""
    ensures url.Some? ==> r == "<image src='" + url.value + "'/>"
  {
    if url.Some? then "<image src='" + url.value + "'/>" else ""
  }
}
