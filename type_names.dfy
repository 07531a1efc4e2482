/**
 * Type-name allocation in the dynamic module: `GetTypeName` loops over
 * candidates until one is not yet the name of a type in the module, and
 * defining the factory type then adds that name to the module.
 */
module TypeNames {
  import opened Services
  import opened Naming

  /**
   * The dynamic module, reduced to what name allocation sees of it: the
   * names of the types defined so far, in definition order (`GetTypes()`).
   */
  class ModuleBuilder {
    var typeNames: seq<string>

    /** `DefineDynamicModule`: a module with no types yet. */
    constructor ()
      ensures typeNames == []
    {
      typeNames := [];
    }

    /** `DefineType(name, ...)`: the module now also holds a type called `name`. */
    method DefineType(name: string)
      modifies this
      ensures typeNames == old(typeNames) + [name]
    {
      typeNames := typeNames + [name];
    }
  }

  /**
   * `GetTypeName`: the first of `base`, `base_1`, `base_2`, ... that no type
   * of the module is already called, ignoring case. The counter never passes
   * the number of types in the module.
   */
  method GetTypeName(serviceInfo: ServiceInfo, dynamicModule: ModuleBuilder) returns (typeName: string)
    ensures !Taken(dynamicModule.typeNames, typeName)
    ensures exists i :: (0 <= i <= |dynamicModule.typeNames|
                      && typeName == Candidate(BaseName(serviceInfo), i)
                      && IsFirstFree(dynamicModule.typeNames, BaseName(serviceInfo), i))
  {
    var baseName := BaseName(serviceInfo);
    FreeCandidateExists(dynamicModule.typeNames, baseName);
    var i := 0;
    typeName := baseName;
    while Taken(dynamicModule.typeNames, typeName)
      invariant typeName == Candidate(baseName, i)
      invariant forall j :: 0 <= j < i ==> Taken(dynamicModule.typeNames, Candidate(baseName, j))
      invariant exists f :: i <= f <= |dynamicModule.typeNames| && !Taken(dynamicModule.typeNames, Candidate(baseName, f))
      decreases |dynamicModule.typeNames| - i
    {
      i := i + 1;
      typeName := Candidate(baseName, i);
    }
  }

  /**
   * The naming part of `GenerateSimpleFactory`: allocate the factory type's
   * name and define the type, which adds exactly that name to the module.
   */
  method GenerateSimpleFactory(serviceInfo: ServiceInfo, dynamicModule: ModuleBuilder) returns (typeName: string)
    modifies dynamicModule
    ensures dynamicModule.typeNames == old(dynamicModule.typeNames) + [typeName]
    ensures !Taken(old(dynamicModule.typeNames), typeName)
    ensures exists i :: (0 <= i <= |old(dynamicModule.typeNames)|
                      && typeName == Candidate(BaseName(serviceInfo), i)
                      && IsFirstFree(old(dynamicModule.typeNames), BaseName(serviceInfo), i))
  {
    typeName := GetTypeName(serviceInfo, dynamicModule);
    dynamicModule.DefineType(typeName);
  }

  /**
   * Names that were each free when they were defined are pairwise distinct,
   * ignoring case: successive allocations in one module never collide.
   */
  lemma AllocationsDistinct(names: seq<string>)
    requires forall k :: 0 <= k < |names| ==> !Taken(names[..k], names[k])
    ensures DistinctIgnoringCase(names)
  {
    forall a, b | 0 <= a < b < |names| ensures !SameIgnoringCase(names[a], names[b]) {
      assert names[..b][a] == names[a];
      assert !Taken(names[..b], names[b]);
    }
  }
}
