/** The records the parser passes exchange: handles, locations, classes with
    their methods and fields, and the usage records the cross-reference pass
    emits. Each one is an immutable value. */
module Protos {

  /** A class reference. An unresolved handle carries a best-guess name only. */
  datatype ClassTypeHandle = ClassTypeHandle(name: string, resolved: bool)

  datatype PrimitiveType = Boolean | Byte | Char | Short | Int | Long | Float | Double

  /** A type mention: a primitive, or a (possibly unresolved) class. */
  datatype TypeHandle = Primitive(primitive: PrimitiveType) | Class(clazz: ClassTypeHandle)

  datatype FileHandle = FileHandle(id: int, path: string)

  /** A half-open `[from, to)` offset range inside one file. */
  datatype Span = Span(from: nat, to: nat)

  /** A place in the corpus: a file and a span in it. */
  datatype JumpTarget = JumpTarget(file: FileHandle, span: Span)

  /** Qualified as `<owner>.<method name>`; constructors are named `<init>`. */
  datatype MethodHandle = MethodHandle(name: string)

  datatype Parameter = Parameter(name: string, ty: TypeHandle)

  datatype Method = Method(handle: MethodHandle, parameters: seq<Parameter>, jumpTarget: JumpTarget)

  /** Qualified as `<owner>.<field name>`. */
  datatype FieldHandle = FieldHandle(name: string)

  datatype Field = Field(handle: FieldHandle, ty: TypeHandle)

  /** A class, interface, enum or annotation found by the declaration pass;
      `jumpTarget` is the location of its name. */
  datatype ClassType = ClassType(
    handle: ClassTypeHandle,
    methods: seq<Method>,
    fields: seq<Field>,
    jumpTarget: JumpTarget)

  datatype TypeUsageKind = LocalVariable

  datatype MethodUsageKind = MethodCall | InstanceCreation

  /** One reference from a source location to a type or a method. */
  datatype Usage =
    | TypeUsage(ty: TypeHandle, typeKind: TypeUsageKind, target: JumpTarget)
    | MethodUsage(methodKind: MethodUsageKind, callee: MethodHandle, target: JumpTarget)
}
