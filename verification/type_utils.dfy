/** Name utilities the symbol table relies on: primitive-type parsing and the
    split of a qualified name into package and simple name. The split is taken
    at the last '.'. */
module TypeUtils {
  import opened Results
  import opened Protos
  import Text

  /** The Java keyword of a primitive type. */
  function PrimitiveName(p: PrimitiveType): string
  {
    match p
    case Boolean => "boolean"
    case Byte => "byte"
    case Char => "char"
    case Short => "short"
    case Int => "int"
    case Long => "long"
    case Float => "float"
    case Double => "double"
  }

  /** PrimitiveTypes.parse: the Java primitive keywords, and nothing else. A
      name parses exactly when it is the keyword of some primitive type, and
      then to that type. */
  function ParsePrimitive(name: string): (r: Option<PrimitiveType>)
    ensures r.Some? ==> PrimitiveName(r.value) == name
    ensures r.None? ==> forall p: PrimitiveType :: PrimitiveName(p) != name
  {
    match name
    case "boolean" => Some(Boolean)
    case "byte" => Some(Byte)
    case "char" => Some(Char)
    case "short" => Some(Short)
    case "int" => Some(Int)
    case "long" => Some(Long)
    case "float" => Some(Float)
    case "double" => Some(Double)
    case _ => None
  }

  /** Every primitive keyword parses back to its type. */
  lemma ParsePrimitiveName(p: PrimitiveType)
    ensures ParsePrimitive(PrimitiveName(p)) == Some(p)
  {
  }

  /** TypeUtils.getSimpleName: the text after the last '.', or the whole name. */
  function SimpleName(qualified: string): (r: string)
    ensures '.' !in r
    ensures |r| <= |qualified| && r == qualified[|qualified| - |r|..]
  {
    Text.AfterLast(qualified, '.')
  }

  /** TypeUtils.getPackage: the text before the last '.'; a name without a '.'
      has no package (null). */
  function PackageOf(qualified: string): (r: Option<string>)
    ensures r.None? <==> '.' !in qualified
  {
    var k := Text.LastIndexOf(qualified, '.');
    if k < 0 then None else Some(qualified[..k])
  }

  /** A name with a package is exactly its package, a dot and its simple name,
      so within one package the simple name determines the qualified name. */
  lemma PackageAndSimpleName(qualified: string)
    requires PackageOf(qualified).Some?
    ensures qualified == PackageOf(qualified).value + "." + SimpleName(qualified)
  {
    var k := Text.LastIndexOf(qualified, '.');
    assert qualified == qualified[..k] + "." + qualified[k + 1..];
  }
}
