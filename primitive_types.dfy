/** The kind table of PrimitiveTypeImpl: a primitive type facade reports
    the kind named by its delegate's identifier. */
module PrimitiveTypes {
  import opened Wrappers

  /** The closed enumeration PrimitiveType.Kind. */
  datatype Kind = Boolean | Int | Char | Double | Long | Short | Float | Byte

  /** The Java keyword that names each kind; the reference side of the table. */
  function Keyword(k: Kind): string
  {
    match k
    case Boolean => "boolean"
    case Int => "int"
    case Char => "char"
    case Double => "double"
    case Long => "long"
    case Short => "short"
    case Float => "float"
    case Byte => "byte"
  }

  /** The eight identifiers getKind recognises. */
  const Keywords: set<string> := {"boolean", "int", "char", "double", "long", "short", "float", "byte"}

  /** getKind: the switch over the identifier, in the order the source tests it.
      An unrecognised identifier gives no kind. */
  function KindOf(name: string): (r: Option<Kind>)
    ensures r.Some? <==> name in Keywords
    ensures r.Some? ==> Keyword(r.value) == name
  {
    if name == "boolean" then Some(Boolean)
    else if name == "int" then Some(Int)
    else if name == "char" then Some(Char)
    else if name == "double" then Some(Double)
    else if name == "long" then Some(Long)
    else if name == "short" then Some(Short)
    else if name == "float" then Some(Float)
    else if name == "byte" then Some(Byte)
    else None
  }

  /** Every kind is reached from its own keyword. */
  lemma KindOfKeyword(k: Kind)
    ensures KindOf(Keyword(k)) == Some(k)
  {
  }

  /** Distinct recognised names give distinct kinds. */
  lemma KindOfInjective(a: string, b: string)
    requires KindOf(a).Some? && KindOf(a) == KindOf(b)
    ensures a == b
  {
  }

  /** "void" is not a primitive kind; it has its own facade. */
  lemma VoidHasNoKind()
    ensures KindOf("void") == None
  {
  }
}
