/**
 * `GenerateContainerAssembly`: select the roots, keep the simple factories,
 * define one uniquely named factory type per simple factory, define the
 * generator type, build the block meant for its entry point, and then throw
 * when that block is wrapped as a `Container` lambda.
 */
module Generator {
  import opened Wrappers
  import opened Services
  import opened Naming
  import opened TypeNames
  import opened RootSelection
  import opened Grouping

  /** A block variable (`ParameterExpression`). */
  datatype Variable = Variable(name: string)

  /** The expressions the entry point is made of; `Opaque` stands for any other expression. */
  datatype Expr =
    | NewContainer
    | Assign(target: Variable, value: Expr)
    | VariableRef(variable: Variable)
    | Opaque(handle: nat)

  /** `Expression.Block(typeof(Container), variables, expressions)`; its value is that of the last expression. */
  datatype Block = Block(variables: seq<Variable>, expressions: seq<Expr>)

  /** `generatedContainerVariable`, the one variable of the entry point. */
  const ContainerVariable: Variable := Variable("container")

  /** `nameof(ContainerGenerator)`: the type that holds the entry point. */
  const GeneratorTypeName: string := "ContainerGenerator"

  /**
   * The body of `GetContainer`: assign a new container to the variable, run
   * the registration lines in order, and end with the variable, the block's value.
   */
  function EntryBlock(v: Variable, registrationLines: seq<Expr>): (b: Block)
    ensures b.variables == [v]
    ensures |b.expressions| == |registrationLines| + 2
    ensures b.expressions[0] == Assign(v, NewContainer)
    ensures b.expressions[1..|b.expressions| - 1] == registrationLines
    ensures b.expressions[|b.expressions| - 1] == VariableRef(v)
  {
    Block([v], [Assign(v, NewContainer)] + registrationLines + [VariableRef(v)])
  }

  // --------------------------------------------- meaning of the entry block

  /** What evaluation keeps: the value of each assigned variable and the number of containers created. */
  datatype State = State(variables: map<Variable, nat>, created: nat)

  /** Evaluates one expression: its value (a container number, if any) and the new state. */
  function Eval(e: Expr, s: State): (Option<nat>, State) {
    match e
    case NewContainer => (Some(s.created), s.(created := s.created + 1))
    case Assign(target, value) =>
      var (r, s') := Eval(value, s);
      (match r
       case Some(c) => (Some(c), s'.(variables := s'.variables[target := c]))
       case None => (None, s'))
    case VariableRef(v) => (if v in s.variables then Some(s.variables[v]) else None, s)
    case Opaque(_) => (None, s)
  }

  /** Evaluates expressions in order; the value is the last one's. */
  function EvalSeq(es: seq<Expr>, s: State): (Option<nat>, State) {
    if es == [] then (None, s)
    else
      var (r, s') := Eval(es[0], s);
      if |es| == 1 then (r, s') else EvalSeq(es[1..], s')
  }

  /** `e` assigns to `v` somewhere. */
  predicate AssignsTo(e: Expr, v: Variable) {
    match e
    case Assign(target, value) => target == v || AssignsTo(value, v)
    case _ => false
  }

  lemma {:induction false} EvalKeeps(e: Expr, s: State, v: Variable)
    requires !AssignsTo(e, v)
    ensures var s' := Eval(e, s).1;
      (v in s.variables ==> v in s'.variables && s'.variables[v] == s.variables[v]) && s'.created >= s.created
  {
    match e
    case Assign(target, value) => EvalKeeps(value, s, v);
    case _ =>
  }

  lemma {:induction false} EvalSeqKeeps(es: seq<Expr>, s: State, v: Variable, c: nat)
    requires forall k :: 0 <= k < |es| ==> !AssignsTo(es[k], v)
    requires v in s.variables && s.variables[v] == c
    ensures var s' := EvalSeq(es, s).1; v in s'.variables && s'.variables[v] == c
  {
    if es != [] {
      EvalKeeps(es[0], s, v);
      if |es| > 1 {
        EvalSeqKeeps(es[1..], Eval(es[0], s).1, v, c);
      }
    }
  }

  /**
   * Running the entry block yields the container it created first, as long
   * as no registration line assigns the container variable.
   */
  lemma {:induction false} EntryBlockReturnsNewContainer(v: Variable, registrationLines: seq<Expr>, s: State)
    requires forall k :: 0 <= k < |registrationLines| ==> !AssignsTo(registrationLines[k], v)
    ensures EvalSeq(EntryBlock(v, registrationLines).expressions, s).0 == Some(s.created)
  {
    var es := EntryBlock(v, registrationLines).expressions;
    assert es[0] == Assign(v, NewContainer);
    assert Eval(NewContainer, s) == (Some(s.created), s.(created := s.created + 1));
    var s1 := Eval(es[0], s).1;
    assert s1.variables == s.variables[v := s.created];
    EvalSeqKeeps(registrationLines, s1, v, s.created);
    EvalSeqSplit(registrationLines, VariableRef(v), s1);
    assert es[1..] == registrationLines + [VariableRef(v)];
  }

  lemma {:induction false} EvalSeqSplit(es: seq<Expr>, last: Expr, s: State)
    ensures EvalSeq(es + [last], s).0 == Eval(last, EvalSeq(es, s).1).0
  {
    if es != [] {
      var s' := Eval(es[0], s).1;
      assert (es + [last])[0] == es[0];
      assert (es + [last])[1..] == es[1..] + [last];
      if |es| > 1 {
        EvalSeqSplit(es[1..], last, s');
      } else {
        assert es[1..] + [last] == [last];
      }
    } else {
      assert es + [last] == [last];
    }
  }

  // ----------------------------------------------------- the whole generator

  /** Why a call of the generator throws. */
  datatype GenerationError =
      /** `Expression.Lambda<Container>(block)`: `Container` is not a delegate type (ArgumentException). */
    | LambdaTypeNotDelegate

  /**
   * What a call of `GenerateContainerAssembly` leaves behind: the exception
   * it throws, if any, the type names of the dynamic module, and the entry
   * block built for `GetContainer`.
   */
  datatype GenerationOutcome = GenerationOutcome(
    thrown: Option<GenerationError>,
    typeNames: seq<string>,
    entryBlock: Block)

  /**
   * Type name `k` was the first free candidate for base name `baseName`
   * among the names defined before it.
   */
  predicate AllocatedAt(names: seq<string>, k: nat, baseName: string)
    requires k < |names|
  {
    exists i :: 0 <= i <= k && names[k] == Candidate(baseName, i) && IsFirstFree(names[..k], baseName, i)
  }

  /** The first `count` type names were allocated for the first `count` factories, in order. */
  predicate FactoryTypesAllocated<E>(names: seq<string>, factories: seq<RootEntry<E>>, count: nat)
    requires count <= |names| && count <= |factories|
  {
    forall j :: 0 <= j < count ==> AllocatedAt(names, j, BaseName(factories[j].info))
  }

  /** Defining more types later does not change how an earlier name was allocated. */
  lemma AllocatedAtExtend(names: seq<string>, name: string, k: nat, baseName: string)
    requires k < |names| && AllocatedAt(names, k, baseName)
    ensures AllocatedAt(names + [name], k, baseName)
  {
    assert (names + [name])[..k] == names[..k];
    assert (names + [name])[k] == names[k];
  }

  /**
   * Appending the next factory's type name, chosen by the first-free rule,
   * extends the allocation by one; appending any other name keeps it.
   */
  lemma FactoryTypesExtend<E>(names: seq<string>, name: string, factories: seq<RootEntry<E>>, count: nat)
    requires count <= |names| && count <= |factories|
    requires FactoryTypesAllocated(names, factories, count)
    ensures FactoryTypesAllocated(names + [name], factories, count)
    ensures count == |names| < |factories|
      && (exists i :: (0 <= i <= |names| && name == Candidate(BaseName(factories[count].info), i)
                       && IsFirstFree(names, BaseName(factories[count].info), i)))
      ==> FactoryTypesAllocated(names + [name], factories, count + 1)
  {
    forall j | 0 <= j < count ensures AllocatedAt(names + [name], j, BaseName(factories[j].info)) {
      AllocatedAtExtend(names, name, j, BaseName(factories[j].info));
    }
    assert (names + [name])[..|names|] == names;
  }

  /** Allocated names were each free when defined, so they are pairwise distinct ignoring case. */
  lemma FactoryTypesDistinct<E>(names: seq<string>, factories: seq<RootEntry<E>>)
    requires |names| <= |factories|
    requires FactoryTypesAllocated(names, factories, |names|)
    ensures DistinctIgnoringCase(names)
  {
    forall k | 0 <= k < |names| ensures !Taken(names[..k], names[k]) {
      assert AllocatedAt(names, k, BaseName(factories[k].info));
    }
    AllocationsDistinct(names);
  }

  /**
   * `GenerateContainerAssembly`. The module gets one factory type per simple
   * factory, in order, each named by `GetTypeName` and so distinct from all
   * before it, and then the generator type. The registration lines are never
   * added to, so the entry block only creates and returns the container.
   * Wrapping that block with `Expression.Lambda<Container>` then throws,
   * because `Container` is not a delegate type: the call never reaches
   * `CompileToMethod`, `CreateDelegate` or the `ContainerAssembly` it is
   * declared to return.
   */
  method GenerateContainerAssembly<E>(
    container: Container,
    selectResolutionRoots: Option<RootSelector>,
    resolutionRoots: Option<seq<ServiceInfo>>,
    generate: seq<ServiceInfo> -> GeneratedExpressions<E>)
    returns (outcome: GenerationOutcome)
    ensures outcome.thrown == Some(LambdaTypeNotDelegate)
    ensures var factories := SimpleFactories(GetGeneratedExpressions(container, selectResolutionRoots, resolutionRoots, generate));
      && |outcome.typeNames| == |factories| + 1
      && FactoryTypesAllocated(outcome.typeNames, factories, |factories|)
      && DistinctIgnoringCase(outcome.typeNames[..|factories|])
      && outcome.typeNames[|factories|] == GeneratorTypeName
    ensures outcome.entryBlock == EntryBlock(ContainerVariable, [])
  {
    var generatedExpressions := GetGeneratedExpressions(container, selectResolutionRoots, resolutionRoots, generate);
    var simpleFactories := SimpleFactories(generatedExpressions);
    var dynamicModule := new ModuleBuilder();
    var registrationLines: seq<Expr> := [];
    for k := 0 to |simpleFactories|
      invariant |dynamicModule.typeNames| == k
      invariant FactoryTypesAllocated(dynamicModule.typeNames, simpleFactories, k)
    {
      ghost var before := dynamicModule.typeNames;
      var typeName := GenerateSimpleFactory(simpleFactories[k].info, dynamicModule);
      FactoryTypesExtend(before, typeName, simpleFactories, k);
    }
    ghost var factoryNames := dynamicModule.typeNames;
    FactoryTypesDistinct(factoryNames, simpleFactories);
    dynamicModule.DefineType(GeneratorTypeName);
    FactoryTypesExtend(factoryNames, GeneratorTypeName, simpleFactories, |simpleFactories|);
    assert dynamicModule.typeNames[..|simpleFactories|] == factoryNames;
    var block := EntryBlock(ContainerVariable, registrationLines);
    outcome := GenerationOutcome(Some(LambdaTypeNotDelegate), dynamicModule.typeNames, block);
  }
}
