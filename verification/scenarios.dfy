/** Worked examples of the cross-reference pass on small, concrete inputs. */
module Scenarios {
  import opened Results
  import opened Protos
  import opened SymbolTable
  import opened ThirdPass

  const Src: FileHandle := FileHandle(1, "p/A.java")
  const Elsewhere: FileHandle := FileHandle(2, "q/Foo.java")

  const FooInit: Method := Method(MethodHandle("q.Foo.<init>"), [], JumpTarget(Elsewhere, Span(30, 33)))
  const FooBar: Method := Method(MethodHandle("q.Foo.bar"), [], JumpTarget(Elsewhere, Span(50, 53)))
  const Foo: ClassType :=
    ClassType(ClassTypeHandle("q.Foo", true), [FooInit, FooBar], [], JumpTarget(Elsewhere, Span(14, 17)))

  const AM: Method := Method(MethodHandle("p.A.m"), [], JumpTarget(Src, Span(45, 46)))
  const A: ClassType := ClassType(ClassTypeHandle("p.A", true), [AM], [], JumpTarget(Src, Span(34, 35)))

  /** The registry after the declaration passes have seen both files. */
  const Registered: Table := Table(
    map["q.Foo" := Foo, "p.A" := A],
    map[Foo.handle := Foo, A.handle := A],
    map[Foo.jumpTarget := Foo, A.jumpTarget := A],
    [], None, None, [EmptyFrame])

  const NewFoo: Node := NewObj("Foo", Span(62, 65), 0, [])
  const DeclareX: Node := VarDecl("Foo", Span(50, 53), ["x"], [NewFoo])
  const CallBar: Node := Node.MethodCall(Name("x"), "bar", Span(72, 75), 0, [])
  const DeclareM: Node := MethodDecl(Span(45, 46), [DeclareX, CallBar])
  const DeclareA: Node := TypeDecl(ClassOrInterface, Span(34, 35), [DeclareM])

  /** `package p; import q.Foo; class A { void m() { Foo x = new Foo(); x.bar(); } }` */
  const Tree: seq<Node> := [Import("q.Foo", false, []), DeclareA]

  const U1: Usage := TypeUsage(Class(Foo.handle), LocalVariable, JumpTarget(Src, Span(50, 53)))
  const U2: Usage := MethodUsage(InstanceCreation, FooInit.handle, JumpTarget(Src, Span(62, 65)))
  const U3: Usage := MethodUsage(MethodUsageKind.MethodCall, FooBar.handle, JumpTarget(Src, Span(72, 75)))

  /** The unit entered, before and after `q.Foo` is imported. */
  const Entered: Table := Registered.(packageScope := Some("p"), imports := Some(map[]),
    frames := [EmptyFrame, EmptyFrame])
  const InUnit: Table := Entered.(imports := Some(map["Foo" := "q.Foo"]))

  /** Inside class `A`; inside `A.m` before and after `x` is declared. */
  const InA: Table := InUnit.(classStack := [A], frames := [EmptyFrame, EmptyFrame, EmptyFrame])
  const EnteredM: Table := InA.(frames := [EmptyFrame, EmptyFrame, EmptyFrame, EmptyFrame])
  const InMethod: Table := InA.(
    frames := [Frame(map[], map["x" := Class(Foo.handle)]), EmptyFrame, EmptyFrame, EmptyFrame])

  /** Visiting a single sibling is visiting it. */
  lemma VisitAllOne(file: FileHandle, t: Table, n: Node)
    ensures VisitAll(file, t, [n]) == Visit(file, t, n)
  {
    assert [n][1..] == [];
  }

  /** Visiting siblings after a first that completes. */
  lemma VisitAllCons(file: FileHandle, t: Table, n: Node, rest: seq<Node>, t1: Table, us: seq<Usage>,
                     t2: Table, vs: seq<Usage>)
    requires Visit(file, t, n) == Completed(t1, us)
    requires VisitAll(file, t1, rest) == Completed(t2, vs)
    ensures VisitAll(file, t, [n] + rest) == Completed(t2, us + vs)
  {
    assert ([n] + rest)[0] == n && ([n] + rest)[1..] == rest;
  }

  // One step of each traversal rule, over any table.

  lemma ExtractRule(file: FileHandle, t: Table, pkg: string, nodes: seq<Node>,
                    t1: Table, t2: Table, us: seq<Usage>, t3: Table)
    requires EnterCompilationUnit(t, pkg) == Done(t1)
    requires VisitAll(file, t1, nodes) == Completed(t2, us)
    requires LeaveCompilationUnit(t2) == Done(t3)
    ensures Extract(file, t, pkg, nodes) == Completed(t3, us)
  {
  }

  lemma ImportRule(file: FileHandle, t: Table, name: string, h: ClassTypeHandle, t1: Table)
    requires ResolveClassHandle(t, name) == Ok(h)
    requires RegisterImportClass(t, h) == Done(t1)
    ensures Visit(file, t, Import(name, false, [])) == Completed(t1, [])
  {
  }

  lemma TypeDeclRule(file: FileHandle, t: Table, kind: TypeDeclKind, nameSpan: Span, children: seq<Node>,
                     c: ClassType, t1: Table, us: seq<Usage>, t2: Table)
    requires GetClassTypeByLocation(t, file, nameSpan) == Some(c)
    requires VisitAll(file, EnterClassScope(t, c), children) == Completed(t1, us)
    requires LeaveClassScope(t1) == Done(t2)
    ensures Visit(file, t, TypeDecl(kind, nameSpan, children)) == Completed(t2, us)
  {
  }

  lemma MethodDeclRule(file: FileHandle, t: Table, nameSpan: Span, children: seq<Node>,
                       c: ClassType, m: Method, t1: Table, us: seq<Usage>, t2: Table)
    requires CurrentClass(t) == Ok(c)
    requires FindMethodBySpan(c.methods, nameSpan) == Some(m)
    requires VisitAll(file, EnterMethodScope(t, m), children) == Completed(t1, us)
    requires LeaveMethodScope(t1) == Done(t2)
    ensures Visit(file, t, MethodDecl(nameSpan, children)) == Completed(t2, us)
  {
  }

  lemma VarDeclRule(file: FileHandle, t: Table, typeName: string, typeSpan: Span, names: seq<string>,
                    children: seq<Node>, ty: TypeHandle, t1: Table, t2: Table, us: seq<Usage>)
    requires ResolveTypeHandle(t, typeName) == Ok(ty)
    requires DeclareVariables(t, ty, names) == Done(t1)
    requires VisitAll(file, t1, children) == Completed(t2, us)
    ensures Visit(file, t, VarDecl(typeName, typeSpan, names, children))
      == Completed(t2, [TypeUsage(ty, LocalVariable, JumpTarget(file, typeSpan))] + us)
  {
  }

  lemma MethodCallRule(file: FileHandle, t: Table, receiver: Receiver, name: string, nameSpan: Span,
                       argc: nat, ty: Option<TypeHandle>, u: Usage)
    requires ReceiverType(t, receiver) == Ok(ty)
    requires ProcessMethodCall(t, ty, name, argc, MethodUsageKind.MethodCall, JumpTarget(file, nameSpan)) == Some(u)
    ensures Visit(file, t, Node.MethodCall(receiver, name, nameSpan, argc, [])) == Completed(t, [u])
  {
    assert [u] + [] == [u];
  }

  lemma NewObjRule(file: FileHandle, t: Table, typeName: string, typeSpan: Span, argc: nat,
                   ty: TypeHandle, u: Usage)
    requires ResolveTypeHandle(t, typeName) == Ok(ty)
    requires ProcessMethodCall(t, Some(ty), "<init>", argc, InstanceCreation, JumpTarget(file, typeSpan)) == Some(u)
    ensures Visit(file, t, NewObj(typeName, typeSpan, argc, [])) == Completed(t, [u])
  {
    assert [u] + [] == [u];
  }

  // The scenario, node by node.

  lemma EnterStep()
    ensures EnterCompilationUnit(Registered, "p") == Done(Entered)
  {
  }

  lemma ImportStep()
    ensures Visit(Src, Entered, Tree[0]) == Completed(InUnit, [])
  {
    assert TypeUtils.SimpleName("q.Foo") == "Foo" by {
      assert Text.LastIndexOf("q.Foo", '.') == 1;
    }
    assert ResolveClassHandle(Entered, "q.Foo") == Ok(Foo.handle);
    assert RegisterImportClass(Entered, Foo.handle) == Done(InUnit);
    ImportRule(Src, Entered, "q.Foo", Foo.handle, InUnit);
  }

  lemma ResolveFooStep(t: Table)
    requires t.fullyNamed == Registered.fullyNamed && t.imports == InUnit.imports
    ensures ResolveTypeHandle(t, "Foo") == Ok(Class(Foo.handle))
  {
    assert "Foo" != "q.Foo";
    ResolveClassIsFirstCandidate(t, "Foo");
  }

  lemma FooMethods()
    ensures FindMethodInClass(Foo, "bar", 0) == Some(FooBar)
    ensures FindMethodInClass(Foo, "<init>", 0) == Some(FooInit)
  {
    assert "q.Foo" + "." + "bar" == "q.Foo.bar";
    assert "q.Foo" + "." + "<init>" == "q.Foo.<init>";
    assert "q.Foo.<init>"[6] != "q.Foo.bar"[6];
    assert [FooInit, FooBar][1..] == [FooBar] && [FooBar][1..] == [];
    assert MatchingMethods([FooBar], "q.Foo.bar", 0) == [FooBar];
    assert MatchingMethods(Foo.methods, "q.Foo.bar", 0) == [FooBar];
    assert MatchingMethods([FooBar], "q.Foo.<init>", 0) == [];
    assert MatchingMethods(Foo.methods, "q.Foo.<init>", 0) == [FooInit];
  }

  lemma NewFooStep()
    ensures Visit(Src, InMethod, NewFoo) == Completed(InMethod, [U2])
  {
    ResolveFooStep(InMethod);
    assert GetClassByHandle(InMethod, Foo.handle) == Some(Foo);
    FooMethods();
    assert ProcessMethodCall(InMethod, Some(Class(Foo.handle)), "<init>", 0, InstanceCreation,
      JumpTarget(Src, Span(62, 65))) == Some(U2);
    NewObjRule(Src, InMethod, "Foo", Span(62, 65), 0, Class(Foo.handle), U2);
  }

  lemma DeclareVarsStep()
    ensures DeclareVariables(EnteredM, Class(Foo.handle), ["x"]) == Done(InMethod)
  {
  }

  lemma DeclareXStep()
    ensures Visit(Src, EnteredM, DeclareX) == Completed(InMethod, [U1, U2])
  {
    ResolveFooStep(EnteredM);
    DeclareVarsStep();
    NewFooStep();
    VisitAllOne(Src, InMethod, NewFoo);
    VarDeclRule(Src, EnteredM, "Foo", Span(50, 53), ["x"], [NewFoo], Class(Foo.handle), InMethod, InMethod, [U2]);
  }

  lemma CallBarStep()
    ensures Visit(Src, InMethod, CallBar) == Completed(InMethod, [U3])
  {
    assert GetVariableType(InMethod, "x") == Some(Class(Foo.handle));
    assert ReceiverType(InMethod, Name("x")) == Ok(Some(Class(Foo.handle)));
    assert GetClassByHandle(InMethod, Foo.handle) == Some(Foo);
    FooMethods();
    assert ProcessMethodCall(InMethod, Some(Class(Foo.handle)), "bar", 0, MethodUsageKind.MethodCall,
      JumpTarget(Src, Span(72, 75))) == Some(U3);
    MethodCallRule(Src, InMethod, Name("x"), "bar", Span(72, 75), 0, Some(Class(Foo.handle)), U3);
  }

  lemma MethodBodyStep()
    ensures VisitAll(Src, EnteredM, [DeclareX, CallBar]) == Completed(InMethod, [U1, U2, U3])
  {
    DeclareXStep();
    CallBarStep();
    VisitAllOne(Src, InMethod, CallBar);
    VisitAllCons(Src, EnteredM, DeclareX, [CallBar], InMethod, [U1, U2], InMethod, [U3]);
    assert [DeclareX] + [CallBar] == [DeclareX, CallBar];
  }

  lemma MethodStep()
    ensures Visit(Src, InA, DeclareM) == Completed(InA, [U1, U2, U3])
  {
    assert CurrentClass(InA) == Ok(A);
    assert FindMethodBySpan(A.methods, Span(45, 46)) == Some(AM);
    assert EnterMethodScope(InA, AM) == EnteredM;
    MethodBodyStep();
    assert LeaveMethodScope(InMethod) == Done(InA);
    MethodDeclRule(Src, InA, Span(45, 46), [DeclareX, CallBar], A, AM, InMethod, [U1, U2, U3], InA);
  }

  lemma ClassStep()
    ensures Visit(Src, InUnit, DeclareA) == Completed(InUnit, [U1, U2, U3])
  {
    assert GetClassTypeByLocation(InUnit, Src, Span(34, 35)) == Some(A);
    assert EnterClassScope(InUnit, A) == InA;
    MethodStep();
    VisitAllOne(Src, InA, DeclareM);
    assert LeaveClassScope(InA) == Done(InUnit);
    TypeDeclRule(Src, InUnit, ClassOrInterface, Span(34, 35), [DeclareM], A, InA, [U1, U2, U3], InUnit);
  }

  lemma LeaveStep()
    ensures LeaveCompilationUnit(InUnit) == Done(Registered)
  {
  }

  /** The three usages, in traversal order: the local variable's type, the
      constructor and the call through the variable; the table comes back as
      it was given. */
  lemma ImportedClassScenario()
    ensures Extract(Src, Registered, "p", Tree) == Completed(Registered, [U1, U2, U3])
  {
    EnterStep();
    ImportStep();
    ClassStep();
    VisitAllOne(Src, InUnit, DeclareA);
    VisitAllCons(Src, Entered, Tree[0], [DeclareA], InUnit, [], InUnit, [U1, U2, U3]);
    assert [Tree[0]] + [DeclareA] == Tree;
    LeaveStep();
    ExtractRule(Src, Registered, "p", Tree, Entered, InUnit, [U1, U2, U3], Registered);
  }

  const F1: Method := Method(MethodHandle("q.C.f"), [Parameter("x", Primitive(Int))], JumpTarget(Src, Span(1, 2)))
  const F2: Method := Method(MethodHandle("q.C.f"),
    [Parameter("x", Primitive(Int)), Parameter("y", Primitive(Int))], JumpTarget(Src, Span(3, 4)))
  const F1b: Method := Method(MethodHandle("q.C.f"), [Parameter("s", Primitive(Long))], JumpTarget(Src, Span(5, 6)))

  /** Arity picks the overload; two overloads of the same arity give nothing. */
  lemma OverloadsByArity()
    ensures FindMethodInClass(ClassType(ClassTypeHandle("q.C", true), [F1, F2], [], JumpTarget(Src, Span(0, 1))), "f", 1) == Some(F1)
    ensures FindMethodInClass(ClassType(ClassTypeHandle("q.C", true), [F1, F2], [], JumpTarget(Src, Span(0, 1))), "f", 2) == Some(F2)
    ensures FindMethodInClass(ClassType(ClassTypeHandle("q.C", true), [F1, F1b], [], JumpTarget(Src, Span(0, 1))), "f", 1) == None
  {
    assert "q.C" + "." + "f" == "q.C.f";
    assert [F1, F2][1..] == [F2] && [F2][1..] == [] && [F1, F1b][1..] == [F1b] && [F1b][1..] == [];
    assert MatchingMethods([F2], "q.C.f", 1) == [];
    assert MatchingMethods([F2], "q.C.f", 2) == [F2];
    assert MatchingMethods([F1b], "q.C.f", 1) == [F1b];
    assert MatchingMethods([F1, F2], "q.C.f", 1) == [F1];
    assert MatchingMethods([F1, F2], "q.C.f", 2) == [F2];
    assert MatchingMethods([F1, F1b], "q.C.f", 1) == [F1, F1b];
  }
}
