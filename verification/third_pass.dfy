/** The cross-reference pass: walks one file's syntax tree in step with the
    symbol table and emits the usage records of local-variable types, method
    calls and object creations, in pre-order. A declaration the earlier
    passes should have registered but did not aborts the file with an
    assertion failure. */
module ThirdPass {
  import opened Results
  import opened Protos
  import opened SymbolTable
  import TypeUtils

  /** The receiver of a method call: none, `this`, a bare name, or an
      expression of any other shape. */
  datatype Receiver = NoReceiver | This | Name(name: string) | Complex

  datatype TypeDeclKind = ClassOrInterface | Enum | Annotation

  /** The syntax nodes the pass reacts to; every other node is `Other`. Spans
      are those of the declared or referenced name. A variable declaration's
      type text arrives with its generic arguments already dropped. */
  datatype Node =
    | Import(name: string, asterisk: bool, children: seq<Node>)
    | TypeDecl(kind: TypeDeclKind, nameSpan: Span, children: seq<Node>)
    | MethodDecl(nameSpan: Span, children: seq<Node>)
    | VarDecl(typeName: string, typeSpan: Span, names: seq<string>, children: seq<Node>)
    | MethodCall(receiver: Receiver, name: string, nameSpan: Span, argc: nat, children: seq<Node>)
    | NewObj(typeName: string, typeSpan: Span, argc: nat, children: seq<Node>)
    | Other(children: seq<Node>)

  /** The result of visiting: the table and the usages appended, or the
      exception that escaped and the table it left behind. */
  datatype Pass = Completed(table: Table, usages: seq<Usage>) | Aborted(error: Error, table: Table)

  // ---------------------------------------------------------------------
  // Method lookup

  /** The first method of the class declared at exactly `span` (the file is
      not compared). */
  function FindMethodBySpan(ms: seq<Method>, span: Span): (r: Option<Method>)
    ensures r.None? <==> forall i :: 0 <= i < |ms| ==> ms[i].jumpTarget.span != span
    ensures r.Some? ==> exists i :: (0 <= i < |ms| && ms[i] == r.value && ms[i].jumpTarget.span == span
      && forall j :: 0 <= j < i ==> ms[j].jumpTarget.span != span)
  {
    if |ms| == 0 then None
    else if ms[0].jumpTarget.span == span then Some(ms[0])
    else
      var r := FindMethodBySpan(ms[1..], span);
      assert forall i :: 1 <= i < |ms| ==> ms[i] == ms[1..][i - 1];
      r
  }

  predicate Matches(m: Method, qualified: string, argc: nat) {
    m.handle.name == qualified && |m.parameters| == argc
  }

  /** The methods named `qualified` taking `argc` parameters, in order. */
  function MatchingMethods(ms: seq<Method>, qualified: string, argc: nat): (r: seq<Method>)
    ensures forall m :: m in r ==> m in ms && Matches(m, qualified, argc)
    ensures forall m :: m in ms && Matches(m, qualified, argc) ==> m in r
  {
    if |ms| == 0 then []
    else (if Matches(ms[0], qualified, argc) then [ms[0]] else []) + MatchingMethods(ms[1..], qualified, argc)
  }

  /** Exactly one position of `ms` holds a matching method. */
  ghost predicate UniqueMatch(ms: seq<Method>, qualified: string, argc: nat) {
    exists i :: 0 <= i < |ms| && Matches(ms[i], qualified, argc)
      && forall j :: 0 <= j < |ms| && Matches(ms[j], qualified, argc) ==> j == i
  }

  ghost predicate NoMatch(ms: seq<Method>, qualified: string, argc: nat) {
    forall j :: 0 <= j < |ms| ==> !Matches(ms[j], qualified, argc)
  }

  lemma MatchingMethodsEmpty(ms: seq<Method>, qualified: string, argc: nat)
    ensures |MatchingMethods(ms, qualified, argc)| == 0 <==> NoMatch(ms, qualified, argc)
  {
    var r := MatchingMethods(ms, qualified, argc);
    if |r| > 0 {
      assert r[0] in r;
    }
    if !NoMatch(ms, qualified, argc) {
      var j :| 0 <= j < |ms| && Matches(ms[j], qualified, argc);
      assert ms[j] in ms;
    }
  }

  lemma UniqueMatchHead(ms: seq<Method>, qualified: string, argc: nat)
    requires |ms| > 0 && Matches(ms[0], qualified, argc)
    ensures UniqueMatch(ms, qualified, argc) <==> NoMatch(ms[1..], qualified, argc)
  {
    if NoMatch(ms[1..], qualified, argc) {
      assert forall j :: 1 <= j < |ms| ==> ms[j] == ms[1..][j - 1];
      assert forall j :: 0 <= j < |ms| && Matches(ms[j], qualified, argc) ==> j == 0;
    }
    if UniqueMatch(ms, qualified, argc) {
      forall j | 0 <= j < |ms| - 1
        ensures !Matches(ms[1..][j], qualified, argc)
      {
        assert ms[1..][j] == ms[j + 1];
      }
    }
  }

  lemma UniqueMatchSkip(ms: seq<Method>, qualified: string, argc: nat)
    requires |ms| > 0 && !Matches(ms[0], qualified, argc)
    ensures UniqueMatch(ms, qualified, argc) <==> UniqueMatch(ms[1..], qualified, argc)
  {
    var tail := ms[1..];
    assert forall j :: 1 <= j < |ms| ==> ms[j] == tail[j - 1];
    if UniqueMatch(ms, qualified, argc) {
      var i :| 0 <= i < |ms| && Matches(ms[i], qualified, argc)
        && forall j :: 0 <= j < |ms| && Matches(ms[j], qualified, argc) ==> j == i;
      assert Matches(tail[i - 1], qualified, argc);
      assert forall j :: 0 <= j < |tail| && Matches(tail[j], qualified, argc) ==> j == i - 1;
    }
    if UniqueMatch(tail, qualified, argc) {
      var i :| 0 <= i < |tail| && Matches(tail[i], qualified, argc)
        && forall j :: 0 <= j < |tail| && Matches(tail[j], qualified, argc) ==> j == i;
      assert Matches(ms[i + 1], qualified, argc);
      assert forall j :: 0 <= j < |ms| && Matches(ms[j], qualified, argc) ==> j == i + 1;
    }
  }

  /** Exactly one method is collected exactly when exactly one position matches. */
  lemma {:induction false} MatchingMethodsSingleton(ms: seq<Method>, qualified: string, argc: nat)
    ensures |MatchingMethods(ms, qualified, argc)| == 1 <==> UniqueMatch(ms, qualified, argc)
    decreases |ms|
  {
    if |ms| > 0 {
      if Matches(ms[0], qualified, argc) {
        MatchingMethodsEmpty(ms[1..], qualified, argc);
        UniqueMatchHead(ms, qualified, argc);
      } else {
        MatchingMethodsSingleton(ms[1..], qualified, argc);
        UniqueMatchSkip(ms, qualified, argc);
      }
    }
  }

  /** The method `<class>.<name>` taking `argc` parameters, when there is
      exactly one; zero or several candidates give none (no overload ranking). */
  function FindMethodInClass(c: ClassType, name: string, argc: nat): (r: Option<Method>)
    ensures r.Some? <==> UniqueMatch(c.methods, c.handle.name + "." + name, argc)
    ensures r.Some? ==> r.value in c.methods && Matches(r.value, c.handle.name + "." + name, argc)
  {
    var results := MatchingMethods(c.methods, c.handle.name + "." + name, argc);
    MatchingMethodsSingleton(c.methods, c.handle.name + "." + name, argc);
    if |results| == 1 then Some(results[0]) else None
  }

  // ---------------------------------------------------------------------
  // Per-construct steps

  /** A call on `ty` can be attributed: `ty` is a resolved class handle the
      registry knows, and the class registered under it has exactly one method
      `<class>.<name>` taking `argc` parameters. */
  ghost predicate Fits(t: Table, ty: Option<TypeHandle>, name: string, argc: nat) {
    && ty.Some? && ty.value.Class? && ty.value.clazz.resolved && ty.value.clazz in t.byHandle
    && var c := t.byHandle[ty.value.clazz];
       UniqueMatch(c.methods, c.handle.name + "." + name, argc)
  }

  /** `u` records a call, of the given kind and at the given place, of one of
      the fitting methods of the class registered under `ty`. */
  ghost predicate CallsFittingMethod(t: Table, ty: Option<TypeHandle>, name: string, argc: nat,
                                     kind: MethodUsageKind, target: JumpTarget, u: Usage)
    requires ty.Some? && ty.value.Class? && ty.value.clazz in t.byHandle
  {
    var c := t.byHandle[ty.value.clazz];
    exists m :: m in c.methods && Matches(m, c.handle.name + "." + name, argc)
      && u == MethodUsage(kind, m.handle, target)
  }

  /** The usage a call emits: one exactly when the call fits, and then it
      names the fitting method of the registered class. */
  function ProcessMethodCall(t: Table, ty: Option<TypeHandle>, name: string, argc: nat,
                             kind: MethodUsageKind, target: JumpTarget): (r: Option<Usage>)
    ensures r.Some? <==> Fits(t, ty, name, argc)
    ensures r.Some? ==> CallsFittingMethod(t, ty, name, argc, kind, target, r.value)
  {
    if ty.Some? && ty.value.Class? && ty.value.clazz.resolved then
      match GetClassByHandle(t, ty.value.clazz)
      case None => None
      case Some(c) =>
        match FindMethodInClass(c, name, argc)
        case None => None
        case Some(m) => Some(MethodUsage(kind, m.handle, target))
    else None
  }

  /** The type a call is made on: the current class for no receiver or `this`;
      for a bare name its variable type, or the name resolved as a type when no
      variable has it; nothing for any other receiver. */
  function ReceiverType(t: Table, receiver: Receiver): (r: Result<Option<TypeHandle>>)
    ensures (receiver.NoReceiver? || receiver.This?) ==> (r.Err? <==> |t.classStack| == 0)
    ensures (receiver.NoReceiver? || receiver.This?) && r.Err? ==> r.error == NoSuchElement
    ensures (receiver.NoReceiver? || receiver.This?) && r.Ok? ==> r.value == Some(Class(t.classStack[0].handle))
    ensures receiver.Complex? ==> r == Ok(None)
    ensures receiver.Name? && r.Ok? ==> r.value.Some?
  {
    match receiver
    case NoReceiver => var c :- CurrentClass(t); Ok(Some(Class(c.handle)))
    case This => var c :- CurrentClass(t); Ok(Some(Class(c.handle)))
    case Name(x) =>
      (match GetVariableType(t, x)
       case Some(ty) => Ok(Some(ty))
       case None => var ty :- ResolveTypeHandle(t, x); Ok(Some(ty)))
    case Complex => Ok(None)
  }

  /** A bare name bound as a variable is read as that variable, in the
      innermost frame binding it, even when a class of that name is
      registered. */
  lemma VariableReceiverShadowsClass(t: Table, x: string, i: nat)
    requires i < |t.frames| && x in t.frames[i].variables
    requires forall j :: 0 <= j < i ==> x !in t.frames[j].variables
    ensures ReceiverType(t, Name(x)) == Ok(Some(t.frames[i].variables[x]))
  {
    var ty := GetVariableType(t, x);
    var k :| 0 <= k < |t.frames| && x in t.frames[k].variables && ty.value == t.frames[k].variables[x]
      && forall j :: 0 <= j < k ==> x !in t.frames[j].variables;
    assert k == i;
  }

  /** A bare name no frame binds, inside a compilation unit, is read as a type
      name: the class registered under the first registered candidate, else an
      unresolved handle named by its import expansion. */
  lemma UnboundReceiverIsType(t: Table, x: string)
    requires t.imports.Some?
    requires forall i :: 0 <= i < |t.frames| ==> x !in t.frames[i].variables
    requires TypeUtils.ParsePrimitive(x).None?
    ensures ReceiverType(t, Name(x)) == Ok(Some(Class(
      match FirstRegistered(t.fullyNamed, Candidates(t, x))
      case Some(c) => c.handle
      case None => ClassTypeHandle(ImportExpansion(t, x), false))))
  {
  }

  /** Binds each declared name to `ty` in the current frame, except that an
      unresolved class type binds none of them. */
  function DeclareVariables(t: Table, ty: TypeHandle, names: seq<string>): (r: Outcome)
    ensures ty.Class? && !ty.clazz.resolved ==> r == Done(t)
    ensures !(ty.Class? && !ty.clazz.resolved) ==>
      (r.Threw? <==> |t.frames| == 0 && |names| > 0)
    ensures r.Threw? ==> r.error == NoSuchElement && r.table == t
    ensures r.Done? && !(ty.Class? && !ty.clazz.resolved) ==>
      forall x :: GetVariableType(r.table, x) == (if x in names then Some(ty) else GetVariableType(t, x))
    ensures r.Done? ==> (|r.table.frames| == |t.frames|
      && (|t.frames| > 0 ==> r.table.frames[1..] == t.frames[1..] && r.table.frames[0].types == t.frames[0].types))
    ensures r.table == t.(frames := r.table.frames)
    decreases |names|
  {
    if |names| == 0 || (ty.Class? && !ty.clazz.resolved) then Done(t)
    else
      match RegisterVariable(t, ty, names[0])
      case Threw(e, t1) => Threw(e, t1)
      case Done(t1) =>
        var r := DeclareVariables(t1, ty, names[1..]);
        assert forall x :: x in names <==> x == names[0] || x in names[1..];
        r
  }

  /** Carries a symbol-table outcome over to a visit result. */
  function Resume(o: Outcome, usages: seq<Usage>): Pass
  {
    match o
    case Done(t) => Completed(t, usages)
    case Threw(e, t) => Aborted(e, t)
  }

  /** Puts a usage in front of the usages of the children. */
  function Prepend(u: Option<Usage>, p: Pass): Pass
  {
    match p
    case Completed(t, us) => Completed(t, (if u.Some? then [u.value] else []) + us)
    case Aborted(e, t) => p
  }

  // ---------------------------------------------------------------------
  // Traversal

  /** What every visit keeps: the registry, the package, and, when it
      completes, the class stack, the frame depth, every frame but the
      innermost, the innermost frame's types and an active import map. Inside
      an active compilation unit with a frame, only a missing declaration or
      a missing enclosing class can abort it. */
  predicate Keeps(t: Table, r: Pass) {
    && SameRegistry(t, r.table)
    && r.table.packageScope == t.packageScope
    && (r.Completed? ==>
      && r.table.classStack == t.classStack
      && |r.table.frames| == |t.frames|
      && (|t.frames| > 0 ==> r.table.frames[1..] == t.frames[1..] && r.table.frames[0].types == t.frames[0].types)
      && (t.imports.Some? ==> r.table.imports.Some?))
    && (r.Aborted? && t.imports.Some? && |t.frames| > 0 ==>
      r.error == AssertionFailed || r.error == NoSuchElement)
  }

  function Visit(file: FileHandle, t: Table, n: Node): (r: Pass)
    ensures Keeps(t, r)
    decreases n, 1
  {
    match n
    case Import(name, asterisk, children) =>
      var o :=
        if asterisk then RegisterImportPackage(t, name)
        else (match ResolveClassHandle(t, name)
          case Err(e) => Threw(e, t)
          case Ok(h) => RegisterImportClass(t, h));
      if o.Threw? then Aborted(o.error, o.table) else VisitAll(file, o.table, children)
    case TypeDecl(_, nameSpan, children) =>
      (match GetClassTypeByLocation(t, file, nameSpan)
       case None => Aborted(AssertionFailed, t)
       case Some(c) => VisitClassBody(file, t, c, children))
    case MethodDecl(nameSpan, children) =>
      (match CurrentClass(t)
       case Err(e) => Aborted(e, t)
       case Ok(c) =>
         match FindMethodBySpan(c.methods, nameSpan)
         case None => Aborted(AssertionFailed, t)
         case Some(m) => VisitMethodBody(file, t, m, children))
    case VarDecl(typeName, typeSpan, names, children) =>
      (match ResolveTypeHandle(t, typeName)
       case Err(e) => Aborted(e, t)
       case Ok(ty) =>
         var usage := TypeUsage(ty, LocalVariable, JumpTarget(file, typeSpan));
         match DeclareVariables(t, ty, names)
         case Threw(e, t1) => Aborted(e, t1)
         case Done(t1) => Prepend(Some(usage), VisitAll(file, t1, children)))
    case MethodCall(receiver, name, nameSpan, argc, children) =>
      (match ReceiverType(t, receiver)
       case Err(e) => Aborted(e, t)
       case Ok(ty) =>
         var usage := ProcessMethodCall(t, ty, name, argc, MethodUsageKind.MethodCall, JumpTarget(file, nameSpan));
         Prepend(usage, VisitAll(file, t, children)))
    case NewObj(typeName, typeSpan, argc, children) =>
      (match ResolveTypeHandle(t, typeName)
       case Err(e) => Aborted(e, t)
       case Ok(ty) =>
         var usage := ProcessMethodCall(t, Some(ty), "<init>", argc, InstanceCreation, JumpTarget(file, typeSpan));
         Prepend(usage, VisitAll(file, t, children)))
    case Other(children) => VisitAll(file, t, children)
  }

  /** A class body between enterClassScope and leaveClassScope. */
  function VisitClassBody(file: FileHandle, t: Table, c: ClassType, children: seq<Node>): (r: Pass)
    ensures Keeps(t, r)
    decreases children, 2
  {
    var inner := VisitAll(file, EnterClassScope(t, c), children);
    if inner.Aborted? then inner else Resume(LeaveClassScope(inner.table), inner.usages)
  }

  /** A method body between enterMethodScope and leaveMethodScope. */
  function VisitMethodBody(file: FileHandle, t: Table, m: Method, children: seq<Node>): (r: Pass)
    ensures Keeps(t, r)
    decreases children, 2
  {
    var inner := VisitAll(file, EnterMethodScope(t, m), children);
    if inner.Aborted? then inner else Resume(LeaveMethodScope(inner.table), inner.usages)
  }

  /** Visits siblings left to right, threading the table and concatenating
      their usages; the first abort stops the walk. */
  function VisitAll(file: FileHandle, t: Table, ns: seq<Node>): (r: Pass)
    ensures Keeps(t, r)
    decreases ns, 0
  {
    if |ns| == 0 then Completed(t, [])
    else
      var first := Visit(file, t, ns[0]);
      if first.Aborted? then first
      else
        var rest := VisitAll(file, first.table, ns[1..]);
        if rest.Aborted? then rest else Completed(rest.table, first.usages + rest.usages)
  }

  /** One file: enter its compilation unit, visit its top-level nodes, leave
      the unit. There is no `finally`: an abort leaves the unit entered. */
  function Extract(file: FileHandle, t: Table, pkg: string, nodes: seq<Node>): (r: Pass)
    ensures t.packageScope.Some? ==> r == Aborted(IllegalState, t)
    ensures t.packageScope.None? && r.Completed? ==>
      r.table == t.(imports := None)
    ensures t.packageScope.None? && r.Aborted? ==>
      r.table.packageScope == Some(pkg) && (r.error == AssertionFailed || r.error == NoSuchElement)
      && SameRegistry(t, r.table)
  {
    match EnterCompilationUnit(t, pkg)
    case Threw(e, t1) => Aborted(e, t1)
    case Done(t1) =>
      var p := VisitAll(file, t1, nodes);
      if p.Aborted? then p
      else
        var o := LeaveCompilationUnit(p.table);
        assert o.Done? && o.table.frames == t.frames;
        Resume(o, p.usages)
  }

  // ---------------------------------------------------------------------
  // Properties of the traversal

  /** An aborted file leaves its compilation unit entered, so the next file
      processed with the same table cannot enter its own. */
  lemma AbortedExtractBlocksNextFile(file: FileHandle, t: Table, pkg: string, nodes: seq<Node>, next: string)
    requires t.packageScope.None?
    requires Extract(file, t, pkg, nodes).Aborted?
    ensures EnterCompilationUnit(Extract(file, t, pkg, nodes).table, next) ==
      Threw(IllegalState, Extract(file, t, pkg, nodes).table)
  {
  }

  /** A completed file hands a fresh table back unchanged: one root frame, an
      empty class stack, no compilation unit. */
  lemma FreshTableSurvivesExtract(file: FileHandle, pkg: string, nodes: seq<Node>)
    ensures Extract(file, NewTable(), pkg, nodes).Completed? ==>
      Extract(file, NewTable(), pkg, nodes).table == NewTable()
    ensures Extract(file, NewTable(), pkg, nodes).Completed? ==>
      |Extract(file, NewTable(), pkg, nodes).table.frames| == 1
      && Extract(file, NewTable(), pkg, nodes).table.classStack == []
  {
  }

  /** A local variable declaration inside a compilation unit emits its type
      usage first, whether or not the type resolved, ahead of the usages of
      its initialisers. */
  lemma VarDeclEmitsTypeUsageFirst(file: FileHandle, t: Table, typeName: string, typeSpan: Span,
                                   names: seq<string>, children: seq<Node>)
    requires t.imports.Some? && |t.frames| > 0
    ensures ResolveTypeHandle(t, typeName).Ok?
    ensures Visit(file, t, VarDecl(typeName, typeSpan, names, children)).Completed? ==>
      && |Visit(file, t, VarDecl(typeName, typeSpan, names, children)).usages| >= 1
      && Visit(file, t, VarDecl(typeName, typeSpan, names, children)).usages[0]
         == TypeUsage(ResolveTypeHandle(t, typeName).value, LocalVariable, JumpTarget(file, typeSpan))
  {
  }

  /** A type declaration the registry does not hold at its name's location
      aborts the file with an assertion failure, before anything is entered. */
  lemma UndiscoveredTypeAborts(file: FileHandle, t: Table, kind: TypeDeclKind, nameSpan: Span, children: seq<Node>)
    requires JumpTarget(file, nameSpan) !in t.byLocation
    ensures Visit(file, t, TypeDecl(kind, nameSpan, children)) == Aborted(AssertionFailed, t)
  {
  }

  /** A method declaration whose name span matches no method of the current
      class aborts the file with an assertion failure. */
  lemma UndiscoveredMethodAborts(file: FileHandle, t: Table, nameSpan: Span, children: seq<Node>)
    requires |t.classStack| > 0
    requires forall i :: 0 <= i < |t.classStack[0].methods| ==> t.classStack[0].methods[i].jumpTarget.span != nameSpan
    ensures Visit(file, t, MethodDecl(nameSpan, children)) == Aborted(AssertionFailed, t)
  {
  }

  /** A method call whose receiver can be typed visits its arguments as if it
      were not there, except that it first emits a usage of the fitting
      method when there is one, and nothing otherwise. A receiver that cannot
      be typed aborts the file before the arguments are visited. */
  lemma MethodCallEmitsUsage(file: FileHandle, t: Table, receiver: Receiver, name: string,
                             nameSpan: Span, argc: nat, children: seq<Node>)
    ensures ReceiverType(t, receiver).Err? ==>
      Visit(file, t, Node.MethodCall(receiver, name, nameSpan, argc, children))
      == Aborted(ReceiverType(t, receiver).error, t)
    ensures ReceiverType(t, receiver).Ok? ==>
      (Visit(file, t, Node.MethodCall(receiver, name, nameSpan, argc, children)).Completed?
       <==> VisitAll(file, t, children).Completed?)
    ensures (ReceiverType(t, receiver).Ok? && VisitAll(file, t, children).Completed?
      && !Fits(t, ReceiverType(t, receiver).value, name, argc)) ==>
      Visit(file, t, Node.MethodCall(receiver, name, nameSpan, argc, children)).usages
      == VisitAll(file, t, children).usages
    ensures (ReceiverType(t, receiver).Ok? && VisitAll(file, t, children).Completed?
      && Fits(t, ReceiverType(t, receiver).value, name, argc)) ==>
      var us := Visit(file, t, Node.MethodCall(receiver, name, nameSpan, argc, children)).usages;
      && |us| == |VisitAll(file, t, children).usages| + 1
      && us[1..] == VisitAll(file, t, children).usages
      && CallsFittingMethod(t, ReceiverType(t, receiver).value, name, argc,
           MethodUsageKind.MethodCall, JumpTarget(file, nameSpan), us[0])
  {
  }

  /** An object creation emits a usage of the class's one constructor taking
      that many arguments, when the type resolves to a registered class that
      has exactly one; then its arguments are visited. */
  lemma NewObjEmitsUsage(file: FileHandle, t: Table, typeName: string, typeSpan: Span,
                         argc: nat, children: seq<Node>)
    ensures ResolveTypeHandle(t, typeName).Err? ==>
      Visit(file, t, NewObj(typeName, typeSpan, argc, children))
      == Aborted(ResolveTypeHandle(t, typeName).error, t)
    ensures ResolveTypeHandle(t, typeName).Ok? ==>
      (Visit(file, t, NewObj(typeName, typeSpan, argc, children)).Completed?
       <==> VisitAll(file, t, children).Completed?)
    ensures (ResolveTypeHandle(t, typeName).Ok? && VisitAll(file, t, children).Completed?
      && !Fits(t, Some(ResolveTypeHandle(t, typeName).value), "<init>", argc)) ==>
      Visit(file, t, NewObj(typeName, typeSpan, argc, children)).usages
      == VisitAll(file, t, children).usages
    ensures (ResolveTypeHandle(t, typeName).Ok? && VisitAll(file, t, children).Completed?
      && Fits(t, Some(ResolveTypeHandle(t, typeName).value), "<init>", argc)) ==>
      var us := Visit(file, t, NewObj(typeName, typeSpan, argc, children)).usages;
      && |us| == |VisitAll(file, t, children).usages| + 1
      && us[1..] == VisitAll(file, t, children).usages
      && CallsFittingMethod(t, Some(ResolveTypeHandle(t, typeName).value), "<init>", argc,
           InstanceCreation, JumpTarget(file, typeSpan), us[0])
  {
  }
}
