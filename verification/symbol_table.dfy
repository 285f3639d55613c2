/** The scope-aware symbol table: a global registry of the classes found so
    far (by qualified name, by handle, by declaration location) plus the
    lexical environment of the file being processed (a stack of frames, a stack
    of enclosing classes, the active package and its import aliases).

    The Java class mutates itself in place; here every mutating call maps a
    table to an `Outcome`, and a call that throws reports the table as the
    exception left it. */
module SymbolTable {
  import opened Results
  import opened Protos
  import TypeUtils
  import Text

  /** One lexical scope. `types` is keyed by the class's QUALIFIED name, which
      is what `Frame.registerClassType` uses even though the field is meant
      for short names. */
  datatype Frame = Frame(types: map<string, ClassType>, variables: map<string, TypeHandle>)

  const EmptyFrame: Frame := Frame(map[], map[])

  datatype Table = Table(
    fullyNamed: map<string, ClassType>,
    byHandle: map<ClassTypeHandle, ClassType>,
    byLocation: map<JumpTarget, ClassType>,
    classStack: seq<ClassType>,          // innermost class first
    packageScope: Option<string>,        // null outside a compilation unit
    imports: Option<map<string, string>>, // simple name -> qualified name; null outside a unit
    frames: seq<Frame>)                  // innermost frame first

  /** The table after a mutating call: it returned normally, or it threw and
      `table` is what the exception left behind. */
  datatype Outcome = Done(table: Table) | Threw(error: Error, table: Table)

  /** The global registry of `b` is the one of `a`. */
  predicate SameRegistry(a: Table, b: Table) {
    && a.fullyNamed == b.fullyNamed
    && a.byHandle == b.byHandle
    && a.byLocation == b.byLocation
  }

  /** The constructor: an empty registry and one root frame, outside any
      compilation unit and any class. Nothing is bound or registered yet, but
      a class or a variable can already be registered. */
  function NewTable(): (r: Table)
    ensures forall name :: GetVariableType(r, name).None?
    ensures forall h :: GetClassByHandle(r, h).None?
    ensures forall file, span :: GetClassTypeByLocation(r, file, span).None?
    ensures r.fullyNamed == map[]
    ensures CurrentClass(r).Err? && ResolveImportAlias(r, "").Err?
    ensures r.packageScope.None?
    ensures |r.frames| == 1
  {
    Table(map[], map[], map[], [], None, None, [EmptyFrame])
  }

  function Or<T>(first: Option<T>, otherwise: Option<T>): Option<T>
  {
    if first.Some? then first else otherwise
  }

  // ---------------------------------------------------------------------
  // Variable bindings

  /** A name bound to a type: a field of the entered class or a parameter. */
  datatype Binding = Binding(name: string, ty: TypeHandle)

  /** Registers the bindings one after another; a later name overwrites. */
  function BindAll(vars: map<string, TypeHandle>, bs: seq<Binding>): map<string, TypeHandle>
    decreases |bs|
  {
    if |bs| == 0 then vars else BindAll(vars[bs[0].name := bs[0].ty], bs[1..])
  }

  /** Independent reading of the same bindings: the type of the LAST binding
      of `name`, searched from the end. */
  function LastBinding(bs: seq<Binding>, name: string): Option<TypeHandle>
  {
    if |bs| == 0 then None
    else if bs[|bs| - 1].name == name then Some(bs[|bs| - 1].ty)
    else LastBinding(bs[..|bs| - 1], name)
  }

  lemma {:induction false} BindAllSnoc(vars: map<string, TypeHandle>, bs: seq<Binding>, b: Binding)
    ensures BindAll(vars, bs + [b]) == BindAll(vars, bs)[b.name := b.ty]
    decreases |bs|
  {
    if |bs| > 0 {
      assert (bs + [b])[1..] == bs[1..] + [b];
      BindAllSnoc(vars[bs[0].name := bs[0].ty], bs[1..], b);
    }
  }

  /** Binding in order leaves each name bound to its last binding, and every
      other name as it was. */
  lemma {:induction false} BindAllLastWins(vars: map<string, TypeHandle>, bs: seq<Binding>, name: string)
    ensures MapGet(BindAll(vars, bs), name) == Or(LastBinding(bs, name), MapGet(vars, name))
    decreases |bs|
  {
    if |bs| > 0 {
      var init := bs[..|bs| - 1];
      assert bs == init + [bs[|bs| - 1]];
      BindAllSnoc(vars, init, bs[|bs| - 1]);
      BindAllLastWins(vars, init, name);
    }
  }

  /** The fields of `c`, each under its handle name with "<owner>." removed. */
  function FieldBindings(c: ClassType): seq<Binding>
  {
    var prefix := c.handle.name + ".";
    seq(|c.fields|, i requires 0 <= i < |c.fields| =>
      Binding(Text.RemoveStart(c.fields[i].handle.name, prefix), c.fields[i].ty))
  }

  function ParameterBindings(m: Method): seq<Binding>
  {
    seq(|m.parameters|, i requires 0 <= i < |m.parameters| =>
      Binding(m.parameters[i].name, m.parameters[i].ty))
  }

  /** Registers bindings into the current (innermost) frame. */
  function BindInnermost(t: Table, bs: seq<Binding>): Table
    requires |t.frames| > 0
  {
    var f := t.frames[0];
    t.(frames := [f.(variables := BindAll(f.variables, bs))] + t.frames[1..])
  }

  // ---------------------------------------------------------------------
  // Scope lifecycle

  function EnterScope(t: Table): (r: Table)
    ensures |r.frames| == |t.frames| + 1 && r.frames[1..] == t.frames
  {
    t.(frames := [EmptyFrame] + t.frames)
  }

  /** `frames.removeFirst()`, which throws on an empty stack. */
  function LeaveScope(t: Table): (r: Outcome)
    ensures r.Threw? <==> |t.frames| == 0
    ensures r.Threw? ==> r.error == NoSuchElement && r.table == t
    ensures r.Done? ==> r.table == t.(frames := t.frames[1..])
  {
    if |t.frames| == 0 then Threw(NoSuchElement, t) else Done(t.(frames := t.frames[1..]))
  }

  /** Only one compilation unit may be active: entering a second one throws.
      Otherwise it sets the package, installs an empty import map and pushes
      one empty frame. */
  function EnterCompilationUnit(t: Table, pkg: string): (r: Outcome)
    ensures r.Threw? <==> t.packageScope.Some?
    ensures r.Threw? ==> r.error == IllegalState && r.table == t
    ensures r.Done? ==> r.table.packageScope == Some(pkg) && r.table.imports == Some(map[])
    ensures r.Done? ==> r.table.frames == [EmptyFrame] + t.frames
    ensures r.table.classStack == t.classStack && SameRegistry(t, r.table)
  {
    if t.packageScope.Some? then Threw(IllegalState, t)
    else Done(EnterScope(t.(packageScope := Some(pkg), imports := Some(map[]))))
  }

  /** Clears the package and the import map, then pops one frame. */
  function LeaveCompilationUnit(t: Table): (r: Outcome)
    ensures r.table.packageScope.None? && r.table.imports.None?
    ensures r.Threw? <==> |t.frames| == 0
    ensures r.Done? ==> r.table.frames == t.frames[1..]
    ensures r.table.classStack == t.classStack && SameRegistry(t, r.table)
  {
    LeaveScope(t.(packageScope := None, imports := None))
  }

  /** Pushes a frame binding every field of `c`, then pushes `c` on the class stack. */
  function EnterClassScope(t: Table, c: ClassType): (r: Table)
    ensures |r.frames| == |t.frames| + 1 && r.frames[1..] == t.frames
    ensures r.frames[0].types == map[]
    ensures r.classStack == [c] + t.classStack
    ensures r.packageScope == t.packageScope && r.imports == t.imports && SameRegistry(t, r)
  {
    var s := BindInnermost(EnterScope(t), FieldBindings(c));
    s.(classStack := [c] + s.classStack)
  }

  /** Pops a frame, then pops the class stack; either pop throws when empty. */
  function LeaveClassScope(t: Table): (r: Outcome)
    ensures r.Threw? <==> |t.frames| == 0 || |t.classStack| == 0
    ensures r.Threw? ==> r.error == NoSuchElement
    ensures r.Done? ==> r.table == t.(frames := t.frames[1..], classStack := t.classStack[1..])
  {
    match LeaveScope(t)
    case Threw(e, t1) => Threw(e, t1)
    case Done(t1) =>
      if |t1.classStack| == 0 then Threw(NoSuchElement, t1)
      else Done(t1.(classStack := t1.classStack[1..]))
  }

  /** Pushes a frame binding every parameter of `m`. */
  function EnterMethodScope(t: Table, m: Method): (r: Table)
    ensures |r.frames| == |t.frames| + 1 && r.frames[1..] == t.frames
    ensures r.frames[0].types == map[]
    ensures r.classStack == t.classStack
    ensures r.packageScope == t.packageScope && r.imports == t.imports && SameRegistry(t, r)
  {
    BindInnermost(EnterScope(t), ParameterBindings(m))
  }

  function LeaveMethodScope(t: Table): (r: Outcome)
    ensures r.Threw? <==> |t.frames| == 0
    ensures r.Done? ==> r.table == t.(frames := t.frames[1..])
  {
    LeaveScope(t)
  }

  // ---------------------------------------------------------------------
  // Lookups

  /** Searches the frames innermost first; the first frame binding `name` wins. */
  function LookupVariable(frames: seq<Frame>, name: string): (r: Option<TypeHandle>)
    ensures r.None? <==> forall i :: 0 <= i < |frames| ==> name !in frames[i].variables
    ensures r.Some? ==> exists i :: (0 <= i < |frames| && name in frames[i].variables
      && r.value == frames[i].variables[name]
      && forall j :: 0 <= j < i ==> name !in frames[j].variables)
  {
    if |frames| == 0 then None
    else if name in frames[0].variables then Some(frames[0].variables[name])
    else
      var r := LookupVariable(frames[1..], name);
      assert forall i :: 1 <= i < |frames| ==> frames[i] == frames[1..][i - 1];
      r
  }

  /** The type of `name` in the innermost frame that binds it, or null. */
  function GetVariableType(t: Table, name: string): (r: Option<TypeHandle>)
    ensures r.None? <==> forall i :: 0 <= i < |t.frames| ==> name !in t.frames[i].variables
    ensures r.Some? ==> exists i :: (0 <= i < |t.frames| && name in t.frames[i].variables
      && r.value == t.frames[i].variables[name]
      && forall j :: 0 <= j < i ==> name !in t.frames[j].variables)
  {
    LookupVariable(t.frames, name)
  }

  /** The class last registered at that file and span, or null. */
  function GetClassTypeByLocation(t: Table, file: FileHandle, span: Span): (r: Option<ClassType>)
    ensures r.Some? <==> JumpTarget(file, span) in t.byLocation
    ensures r.Some? ==> r.value == t.byLocation[JumpTarget(file, span)]
  {
    MapGet(t.byLocation, JumpTarget(file, span))
  }

  /** The class last registered under that handle, or null. */
  function GetClassByHandle(t: Table, h: ClassTypeHandle): (r: Option<ClassType>)
    ensures r.Some? <==> h in t.byHandle
    ensures r.Some? ==> r.value == t.byHandle[h]
  {
    MapGet(t.byHandle, h)
  }

  /** `classStack.getFirst()`, which throws on an empty stack. */
  function CurrentClass(t: Table): (r: Result<ClassType>)
    ensures r.Err? <==> |t.classStack| == 0
    ensures r.Err? ==> r.error == NoSuchElement
    ensures r.Ok? ==> r.value == t.classStack[0]
  {
    if |t.classStack| == 0 then Err(NoSuchElement) else Ok(t.classStack[0])
  }

  /** `imports.get(alias)`; the import map is null outside a compilation unit. */
  function ResolveImportAlias(t: Table, alias: string): (r: Result<Option<string>>)
    ensures r.Err? <==> t.imports.None?
    ensures r.Err? ==> r.error == NullPointer
    ensures r.Ok? ==> (r.value.Some? <==> alias in t.imports.value)
    ensures r.Ok? && r.value.Some? ==> r.value.value == t.imports.value[alias]
  {
    match t.imports
    case None => Err(NullPointer)
    case Some(im) => Ok(MapGet(im, alias))
  }

  // ---------------------------------------------------------------------
  // Registration

  /** Throws when there is no frame; otherwise the class becomes findable by
      qualified name, by handle and by location, and the current frame lists it. */
  function RegisterClassType(t: Table, c: ClassType): (r: Outcome)
    ensures r.Threw? <==> |t.frames| == 0
    ensures r.Threw? ==> r.error == IllegalState && r.table == t
    ensures r.Done? ==> |r.table.frames| == |t.frames| && r.table.frames[1..] == t.frames[1..]
    ensures r.Done? ==> r.table.frames[0] == t.frames[0].(types := t.frames[0].types[c.handle.name := c])
    ensures r.Done? ==> r.table.fullyNamed == t.fullyNamed[c.handle.name := c]
    ensures r.Done? ==> r.table.byHandle == t.byHandle[c.handle := c]
    ensures r.Done? ==> r.table.byLocation == t.byLocation[c.jumpTarget := c]
    ensures r.table.imports == t.imports && r.table.packageScope == t.packageScope
    ensures r.table.classStack == t.classStack
  {
    if |t.frames| == 0 then Threw(IllegalState, t)
    else
      var f := t.frames[0];
      Done(t.(
        fullyNamed := t.fullyNamed[c.handle.name := c],
        byHandle := t.byHandle[c.handle := c],
        byLocation := t.byLocation[c.jumpTarget := c],
        frames := [f.(types := f.types[c.handle.name := c])] + t.frames[1..]))
  }

  /** Binds `name` in the current frame; throws when there is no frame. Then
      `name` is visible with that type and every other lookup is unchanged. */
  function RegisterVariable(t: Table, ty: TypeHandle, name: string): (r: Outcome)
    ensures r.Threw? <==> |t.frames| == 0
    ensures r.Threw? ==> r.error == NoSuchElement && r.table == t
    ensures r.Done? ==> GetVariableType(r.table, name) == Some(ty)
    ensures r.Done? ==> forall x :: x != name ==> GetVariableType(r.table, x) == GetVariableType(t, x)
    ensures r.Done? ==> |r.table.frames| == |t.frames| && r.table.frames[1..] == t.frames[1..]
    ensures r.Done? ==> r.table.frames[0].types == t.frames[0].types
    ensures r.table == t.(frames := r.table.frames)
  {
    if |t.frames| == 0 then Threw(NoSuchElement, t)
    else
      var f := t.frames[0];
      var t' := t.(frames := [f.(variables := f.variables[name := ty])] + t.frames[1..]);
      assert t'.frames[1..] == t.frames[1..];
      Done(t')
  }

  /** Aliases the handle's simple name to its qualified name, replacing any
      earlier alias of that simple name; throws outside a compilation unit. */
  function RegisterImportClass(t: Table, h: ClassTypeHandle): (r: Outcome)
    ensures r.Threw? <==> t.imports.None?
    ensures r.Threw? ==> r.error == NullPointer && r.table == t
    ensures r.Done? ==> ResolveImportAlias(r.table, TypeUtils.SimpleName(h.name)) == Ok(Some(h.name))
    ensures r.Done? ==> forall a :: a != TypeUtils.SimpleName(h.name) ==>
      ResolveImportAlias(r.table, a) == ResolveImportAlias(t, a)
    ensures r.table == t.(imports := r.table.imports)
  {
    match t.imports
    case None => Threw(NullPointer, t)
    case Some(im) => Done(t.(imports := Some(im[TypeUtils.SimpleName(h.name) := h.name])))
  }

  /** The qualified names of the classes listed by some active frame whose
      package is `pkg`. */
  function PackageMembers(t: Table, pkg: string): set<string>
  {
    set i, c | 0 <= i < |t.frames| && c in t.frames[i].types.Values
      && TypeUtils.PackageOf(c.handle.name) == Some(pkg) :: c.handle.name
  }

  function SimpleNames(names: set<string>): set<string>
  {
    set n | n in names :: TypeUtils.SimpleName(n)
  }

  /** Within one package the simple name determines the qualified name. */
  lemma PackageMembersBySimpleName(t: Table, pkg: string, n1: string, n2: string)
    requires n1 in PackageMembers(t, pkg) && n2 in PackageMembers(t, pkg)
    requires TypeUtils.SimpleName(n1) == TypeUtils.SimpleName(n2)
    ensures n1 == n2
  {
    TypeUtils.PackageAndSimpleName(n1);
    TypeUtils.PackageAndSimpleName(n2);
  }

  lemma SimpleNameInjective(t: Table, pkg: string)
    ensures forall n1, n2 | n1 in PackageMembers(t, pkg) && n2 in PackageMembers(t, pkg) ::
      TypeUtils.SimpleName(n1) == TypeUtils.SimpleName(n2) ==> n1 == n2
  {
    forall n1, n2 | n1 in PackageMembers(t, pkg) && n2 in PackageMembers(t, pkg)
      && TypeUtils.SimpleName(n1) == TypeUtils.SimpleName(n2)
      ensures n1 == n2
    {
      PackageMembersBySimpleName(t, pkg, n1, n2);
    }
  }

  /** The aliases a wildcard import of `pkg` adds: simple name -> qualified name. */
  function PackageAliases(t: Table, pkg: string): (m: map<string, string>)
    ensures m.Keys == SimpleNames(PackageMembers(t, pkg))
    ensures forall n :: n in PackageMembers(t, pkg) ==> m[TypeUtils.SimpleName(n)] == n
  {
    var names := PackageMembers(t, pkg);
    SimpleNameInjective(t, pkg);
    map n | n in names :: TypeUtils.SimpleName(n) := n
  }

  /** A wildcard import: aliases every class of `pkg` that an active frame
      lists NOW (classes registered later are not aliased). Each alias is
      registered as by RegisterImportClass, so with no such class nothing is
      dereferenced and nothing throws, even outside a compilation unit. */
  function RegisterImportPackage(t: Table, pkg: string): (r: Outcome)
    ensures r.Threw? <==> PackageMembers(t, pkg) != {} && t.imports.None?
    ensures r.Threw? ==> r.error == NullPointer && r.table == t
    ensures r.Done? ==> forall n :: n in PackageMembers(t, pkg) ==>
      ResolveImportAlias(r.table, TypeUtils.SimpleName(n)) == Ok(Some(n))
    ensures r.Done? ==> forall a :: a !in SimpleNames(PackageMembers(t, pkg)) ==>
      ResolveImportAlias(r.table, a) == ResolveImportAlias(t, a)
    ensures r.table == t.(imports := r.table.imports)
  {
    if PackageMembers(t, pkg) == {} then Done(t)
    else match t.imports
      case None => Threw(NullPointer, t)
      case Some(im) => Done(t.(imports := Some(im + PackageAliases(t, pkg))))
  }

  // ---------------------------------------------------------------------
  // Name resolution

  predicate HasPackage(t: Table) {
    t.packageScope.Some? && t.packageScope.value != ""
  }

  /** The qualified names `resolveClass` tries, in priority order: the name
      itself, its import alias, and the name inside the active package. */
  function Candidates(t: Table, name: string): seq<string>
    requires t.imports.Some?
  {
    [name]
    + (if name in t.imports.value then [t.imports.value[name]] else [])
    + (if HasPackage(t) then [t.packageScope.value + "." + name] else [])
  }

  /** The class registered under the first of `names` that is registered. */
  function FirstRegistered(m: map<string, ClassType>, names: seq<string>): (r: Option<ClassType>)
    ensures r.None? <==> forall i :: 0 <= i < |names| ==> names[i] !in m
    ensures r.Some? ==> exists i :: (0 <= i < |names| && names[i] in m && r.value == m[names[i]]
      && forall j :: 0 <= j < i ==> names[j] !in m)
  {
    if |names| == 0 then None
    else if names[0] in m then Some(m[names[0]])
    else
      var r := FirstRegistered(m, names[1..]);
      assert forall i :: 1 <= i < |names| ==> names[i] == names[1..][i - 1];
      r
  }

  /** The four-step search: qualified name, import alias, same package, and
      again the name alone (a repeat of the first step). A qualified match
      needs no import map; any other lookup dereferences it. */
  function ResolveClass(t: Table, name: string): (r: Result<Option<ClassType>>)
    ensures name in t.fullyNamed ==> r == Ok(Some(t.fullyNamed[name]))
    ensures name !in t.fullyNamed && t.imports.None? ==> r == Err(NullPointer)
    ensures t.imports.Some? ==> r.Ok?
  {
    var qualified := MapGet(t.fullyNamed, name);
    if qualified.Some? then Ok(qualified)
    else match t.imports
      case None => Err(NullPointer)
      case Some(im) =>
        var imported := if name in im then MapGet(t.fullyNamed, im[name]) else None;
        if imported.Some? then Ok(imported)
        else
          var samePackage :=
            if HasPackage(t) then MapGet(t.fullyNamed, t.packageScope.value + "." + name) else None;
          if samePackage.Some? then Ok(samePackage)
          else Ok(MapGet(t.fullyNamed, name))  // "default package": the first lookup again
  }

  lemma {:induction false} FirstRegisteredAppend(m: map<string, ClassType>, a: seq<string>, b: seq<string>)
    ensures FirstRegistered(m, a + b) == Or(FirstRegistered(m, a), FirstRegistered(m, b))
    decreases |a|
  {
    if |a| > 0 {
      assert (a + b)[0] == a[0];
      assert (a + b)[1..] == a[1..] + b;
      FirstRegisteredAppend(m, a[1..], b);
    } else {
      assert a + b == b;
    }
  }

  /** The search finds the class registered under the first registered
      candidate, so the repeated fourth step never finds anything, and the
      result is absent exactly when all three candidates are unregistered. */
  lemma ResolveClassIsFirstCandidate(t: Table, name: string)
    ensures t.imports.Some? ==>
      ResolveClass(t, name) == Ok(FirstRegistered(t.fullyNamed, Candidates(t, name)))
  {
    if t.imports.Some? {
      var im := t.imports.value;
      var alias := if name in im then [im[name]] else [];
      var local := if HasPackage(t) then [t.packageScope.value + "." + name] else [];
      FirstRegisteredAppend(t.fullyNamed, [name] + alias, local);
      FirstRegisteredAppend(t.fullyNamed, [name], alias);
      assert FirstRegistered(t.fullyNamed, [name]) == MapGet(t.fullyNamed, name);
      assert alias != [] ==> FirstRegistered(t.fullyNamed, alias) == MapGet(t.fullyNamed, im[name]);
      assert local != [] ==>
        FirstRegistered(t.fullyNamed, local) == MapGet(t.fullyNamed, t.packageScope.value + "." + name);
    }
  }

  /** What an unresolved name is recorded as: its import expansion, if any. */
  function ImportExpansion(t: Table, name: string): string
  {
    if t.imports.Some? && name in t.imports.value then t.imports.value[name] else name
  }

  /** The resolved class's handle, else an unresolved handle named by the
      import expansion. Inside a compilation unit it never fails. */
  function ResolveClassHandle(t: Table, name: string): (r: Result<ClassTypeHandle>)
    ensures r.Err? <==> name !in t.fullyNamed && t.imports.None?
    ensures name in t.fullyNamed ==> r == Ok(t.fullyNamed[name].handle)
    ensures t.imports.Some? ==> r == Ok(
      match FirstRegistered(t.fullyNamed, Candidates(t, name))
      case Some(c) => c.handle
      case None => ClassTypeHandle(ImportExpansion(t, name), false))
  {
    var found :- ResolveClass(t, name);
    ResolveClassIsFirstCandidate(t, name);
    if found.Some? then Ok(found.value.handle)
    else Ok(ClassTypeHandle(ImportExpansion(t, name), false))
  }

  /** A primitive first; otherwise a class handle as ResolveClassHandle gives. */
  function ResolveTypeHandle(t: Table, name: string): (r: Result<TypeHandle>)
    ensures TypeUtils.ParsePrimitive(name).Some? ==> r == Ok(Primitive(TypeUtils.ParsePrimitive(name).value))
    ensures TypeUtils.ParsePrimitive(name).None? && t.imports.Some? ==> r == Ok(Class(
      match FirstRegistered(t.fullyNamed, Candidates(t, name))
      case Some(c) => c.handle
      case None => ClassTypeHandle(ImportExpansion(t, name), false)))
    ensures r.Err? <==> TypeUtils.ParsePrimitive(name).None? && name !in t.fullyNamed && t.imports.None?
  {
    match TypeUtils.ParsePrimitive(name)
    case Some(p) => Ok(Primitive(p))
    case None =>
      var h :- ResolveClassHandle(t, name);
      Ok(Class(h))
  }

  // ---------------------------------------------------------------------
  // Properties of the scope discipline

  /** Entering then leaving a compilation unit gives back the table. */
  lemma CompilationUnitRoundTrip(t: Table, pkg: string)
    requires t.packageScope.None? && t.imports.None?
    ensures EnterCompilationUnit(t, pkg).Done?
    ensures LeaveCompilationUnit(EnterCompilationUnit(t, pkg).table) == Done(t)
  {
    assert t.(frames := t.frames) == t;
  }

  /** A second compilation unit cannot be entered before the first is left. */
  lemma EnterCompilationUnitTwiceFails(t: Table, first: string, second: string)
    requires t.packageScope.None?
    ensures EnterCompilationUnit(EnterCompilationUnit(t, first).table, second).Threw?
    ensures EnterCompilationUnit(EnterCompilationUnit(t, first).table, second).error == IllegalState
  {
  }

  /** Leaving a class scope undoes entering it: both stacks and the frames are restored. */
  lemma ClassScopeRoundTrip(t: Table, c: ClassType)
    ensures LeaveClassScope(EnterClassScope(t, c)) == Done(t)
  {
    var s := EnterClassScope(t, c);
    assert s.frames[1..] == t.frames && s.classStack[1..] == t.classStack;
  }

  lemma MethodScopeRoundTrip(t: Table, m: Method)
    ensures LeaveMethodScope(EnterMethodScope(t, m)) == Done(t)
  {
    var s := EnterMethodScope(t, m);
    assert s.frames[1..] == t.frames;
  }

  /** Inside a class scope a name denotes the last field with that unqualified
      name; a name no field has is looked up in the enclosing scopes. */
  lemma ClassScopeLookup(t: Table, c: ClassType, name: string)
    ensures GetVariableType(EnterClassScope(t, c), name)
      == Or(LastBinding(FieldBindings(c), name), GetVariableType(t, name))
  {
    BindAllLastWins(map[], FieldBindings(c), name);
    var s := EnterClassScope(t, c);
    assert s.frames[0].variables == BindAll(map[], FieldBindings(c));
    assert s.frames[1..] == t.frames;
  }

  /** Inside a method scope a name denotes the last parameter with that name;
      other names are looked up in the enclosing scopes. */
  lemma MethodScopeLookup(t: Table, m: Method, name: string)
    ensures GetVariableType(EnterMethodScope(t, m), name)
      == Or(LastBinding(ParameterBindings(m), name), GetVariableType(t, name))
  {
    BindAllLastWins(map[], ParameterBindings(m), name);
    var s := EnterMethodScope(t, m);
    assert s.frames[0].variables == BindAll(map[], ParameterBindings(m));
    assert s.frames[1..] == t.frames;
  }

  /** A variable bound in a nested scope shadows outer bindings while the
      scope is open, and leaving the scope restores every lookup. */
  lemma NestedBindingShadowsThenVanishes(t: Table, ty: TypeHandle, name: string)
    ensures RegisterVariable(EnterScope(t), ty, name).Done?
    ensures GetVariableType(RegisterVariable(EnterScope(t), ty, name).table, name) == Some(ty)
    ensures LeaveScope(RegisterVariable(EnterScope(t), ty, name).table) == Done(t)
  {
    var inner := RegisterVariable(EnterScope(t), ty, name).table;
    assert inner.frames[1..] == t.frames;
  }

  /** A registered class is found by its qualified name (with or without an
      active compilation unit), by its handle and by its location. */
  lemma RegisteredClassIsFindable(t: Table, c: ClassType)
    requires |t.frames| > 0
    ensures RegisterClassType(t, c).Done?
    ensures ResolveClass(RegisterClassType(t, c).table, c.handle.name) == Ok(Some(c))
    ensures GetClassByHandle(RegisterClassType(t, c).table, c.handle) == Some(c)
    ensures GetClassTypeByLocation(RegisterClassType(t, c).table, c.jumpTarget.file, c.jumpTarget.span) == Some(c)
  {
  }

  /** A wildcard import is a snapshot: a class of the imported package that is
      registered afterwards gets no alias, and is then found by its simple name
      only through the same-package step. */
  lemma WildcardImportIsSnapshot(t: Table, pkg: string, c: ClassType)
    requires t.imports.Some? && |t.frames| > 0
    requires t.packageScope == Some(pkg) && pkg != ""
    requires TypeUtils.PackageOf(c.handle.name) == Some(pkg)
    requires TypeUtils.SimpleName(c.handle.name) !in t.imports.value
    requires TypeUtils.SimpleName(c.handle.name) !in SimpleNames(PackageMembers(t, pkg))
    requires TypeUtils.SimpleName(c.handle.name) !in t.fullyNamed
    ensures RegisterImportPackage(t, pkg).Done?
    ensures RegisterClassType(RegisterImportPackage(t, pkg).table, c).Done?
    ensures ResolveImportAlias(RegisterClassType(RegisterImportPackage(t, pkg).table, c).table,
      TypeUtils.SimpleName(c.handle.name)) == Ok(None)
    ensures ResolveClass(RegisterClassType(RegisterImportPackage(t, pkg).table, c).table,
      TypeUtils.SimpleName(c.handle.name)) == Ok(Some(c))
  {
    var simple := TypeUtils.SimpleName(c.handle.name);
    TypeUtils.PackageAndSimpleName(c.handle.name);
    assert simple != c.handle.name by {
      assert '.' in c.handle.name;
    }
  }
}
