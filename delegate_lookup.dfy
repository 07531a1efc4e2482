/**
 * `GeneratedFactory.GetDelegateOrDefault`: the factory keeps an ordered list
 * of (required service type, parent request, delegate) entries and answers a
 * request with the delegate of the first entry that fits it.
 */
module DelegateLookup {
  import opened Wrappers
  import opened Services

  /**
   * The `Request` slot of a tuple: a null reference, or a request, which may
   * be `Request.Empty` (`Parent(None)`).
   */
  datatype ParentSlot = NullParent | Parent(request: Option<Request>)

  /** One `Tuple<Type, Request, FactoryDelegate>` of `FactoryDelegates`. */
  datatype DelegateEntry<D> = DelegateEntry(
    requiredServiceType: Option<ServiceType>,
    parent: ParentSlot,
    factoryDelegate: D)

  /**
   * `request.RequiredServiceType == t.Item1 && request.Parent.Equals(t.Item2)`.
   * A request's parent is never null, and `Equals(null)` is false, so a
   * tuple with a null parent fits no request.
   */
  predicate Matches<D>(request: Request, entry: DelegateEntry<D>) {
    request.requiredServiceType == entry.requiredServiceType && entry.parent == Parent(request.parent)
  }

  /** A tuple whose parent is null is never chosen, not even for a root request under `Request.Empty`. */
  lemma NullParentNeverMatches<D>(request: Request, entry: DelegateEntry<D>)
    requires entry.parent == NullParent
    ensures !Matches(request, entry)
  {
  }

  /** Entry `i` is the first one that fits `request`. */
  predicate IsFirstMatch<D>(entries: seq<DelegateEntry<D>>, request: Request, i: int) {
    && 0 <= i < |entries|
    && Matches(request, entries[i])
    && forall j :: 0 <= j < i ==> !Matches(request, entries[j])
  }

  /** When the head does not fit, the first fit of the tail is the first fit of the whole list. */
  lemma FirstMatchAfterMiss<D>(entries: seq<DelegateEntry<D>>, request: Request)
    requires entries != [] && !Matches(request, entries[0])
    ensures forall i :: IsFirstMatch(entries[1..], request, i) ==> IsFirstMatch(entries, request, i + 1)
  {
    forall i | IsFirstMatch(entries[1..], request, i) ensures IsFirstMatch(entries, request, i + 1) {
      forall j | 1 <= j < i + 1 ensures !Matches(request, entries[j]) {
        assert entries[j] == entries[1..][j - 1];
      }
    }
  }

  datatype GeneratedFactory<D> = GeneratedFactory(factoryDelegates: seq<DelegateEntry<D>>) {

    /**
     * `FactoryDelegates.FirstOrDefault(t => ...)?.Item3`: the delegate of the
     * first entry that fits the request, or null (`None`) when none does.
     */
    function GetDelegateOrDefault(request: Request): (r: Option<D>)
      ensures r.None? <==> forall i :: 0 <= i < |factoryDelegates| ==> !Matches(request, factoryDelegates[i])
      ensures r.Some? ==> exists i :: IsFirstMatch(factoryDelegates, request, i)
                                      && r.value == factoryDelegates[i].factoryDelegate
      decreases |factoryDelegates|
    {
      if factoryDelegates == [] then None
      else if Matches(request, factoryDelegates[0]) then Some(factoryDelegates[0].factoryDelegate)
      else
        FirstMatchAfterMiss(factoryDelegates, request);
        GeneratedFactory(factoryDelegates[1..]).GetDelegateOrDefault(request)
    }
  }

  /**
   * Entries added after the list are consulted only when none of the list
   * fits: an earlier entry always wins over a later one.
   */
  lemma {:induction false} GetDelegateOrDefaultAppend<D>(a: seq<DelegateEntry<D>>, b: seq<DelegateEntry<D>>, request: Request)
    ensures GeneratedFactory(a + b).GetDelegateOrDefault(request) ==
      match GeneratedFactory(a).GetDelegateOrDefault(request)
      case Some(d) => Some(d)
      case None => GeneratedFactory(b).GetDelegateOrDefault(request)
  {
    if a == [] {
      assert a + b == b;
    } else {
      assert (a + b)[0] == a[0];
      assert (a + b)[1..] == a[1..] + b;
      GetDelegateOrDefaultAppend(a[1..], b, request);
    }
  }
}
