/**
 * Which services the generated assembly is built for: `GetGeneratedExpressions`
 * and `GetAllRegistrationsAsResolutionRoots`.
 */
module RootSelection {
  import opened Wrappers
  import opened Services

  /** `Func<ServiceRegistrationInfo, ServiceInfo[]>`; its result may be null. */
  type RootSelector = Registration -> Option<seq<ServiceInfo>>

  /** `EmptyIfNull()`. */
  function EmptyIfNull<T>(xs: Option<seq<T>>): seq<T> {
    match xs
    case None => []
    case Some(s) => s
  }

  /** `(selectResolutionRoots?.Invoke(r)).EmptyIfNull()`: nothing for a null selector or a null result. */
  function SelectorOutput(select: Option<RootSelector>, reg: Registration): seq<ServiceInfo> {
    match select
    case None => []
    case Some(f) => EmptyIfNull(f(reg))
  }

  /** `regs.SelectMany(...)`: the selector's outputs, registration by registration, concatenated. */
  function SelectMany(regs: seq<Registration>, select: Option<RootSelector>): seq<ServiceInfo> {
    if regs == [] then [] else SelectorOutput(select, regs[0]) + SelectMany(regs[1..], select)
  }

  /** The roots lambda handed to `GenerateResolutionExpressions`: selected roots, then the explicit ones. */
  function SelectRoots(regs: seq<Registration>, select: Option<RootSelector>, resolutionRoots: Option<seq<ServiceInfo>>): seq<ServiceInfo> {
    SelectMany(regs, select) + EmptyIfNull(resolutionRoots)
  }

  /** The selector of `GetAllRegistrationsAsResolutionRoots`: the registration itself when flagged, else null. */
  function AsResolutionRootSelector(reg: Registration): Option<seq<ServiceInfo>> {
    if reg.asResolutionRoot then Some([reg.ToServiceInfo()]) else None
  }

  /** Reference definition: the flagged registrations, in order, each as its own service info. */
  function FlaggedRoots(regs: seq<Registration>): seq<ServiceInfo> {
    if regs == [] then []
    else if regs[0].asResolutionRoot then [regs[0].ToServiceInfo()] + FlaggedRoots(regs[1..])
    else FlaggedRoots(regs[1..])
  }

  /**
   * `GetGeneratedExpressions`. `generate` stands for the container's
   * resolution engine: it turns the requested roots into expressions.
   * With neither a selector nor an explicit list, the roots are the flagged
   * registrations; otherwise the selector's outputs followed by the list.
   */
  function GetGeneratedExpressions<E>(
    container: Container,
    select: Option<RootSelector>,
    resolutionRoots: Option<seq<ServiceInfo>>,
    generate: seq<ServiceInfo> -> GeneratedExpressions<E>): (r: GeneratedExpressions<E>)
    ensures select.None? && resolutionRoots.None? ==> r == generate(FlaggedRoots(container.registrations))
    ensures !(select.None? && resolutionRoots.None?) ==>
      r == generate(SelectMany(container.registrations, select) + EmptyIfNull(resolutionRoots))
    decreases if select.None? && resolutionRoots.None? then 2 else 0
  {
    if select.None? && resolutionRoots.None? then GetAllRegistrationsAsResolutionRoots(container, generate)
    else generate(SelectRoots(container.registrations, select, resolutionRoots))
  }

  /** `GetAllRegistrationsAsResolutionRoots`: the roots are exactly the flagged registrations. */
  function GetAllRegistrationsAsResolutionRoots<E>(
    container: Container,
    generate: seq<ServiceInfo> -> GeneratedExpressions<E>): (r: GeneratedExpressions<E>)
    ensures r == generate(FlaggedRoots(container.registrations))
    decreases 1
  {
    DefaultSelectsFlagged(container.registrations);
    GetGeneratedExpressions(container, Some(AsResolutionRootSelector), None, generate)
  }

  // ------------------------------------------------------------------ lemmas

  /** The default selector picks exactly the flagged registrations, in order. */
  lemma {:induction false} DefaultSelectsFlagged(regs: seq<Registration>)
    ensures SelectRoots(regs, Some(AsResolutionRootSelector), None) == FlaggedRoots(regs)
  {
    if regs != [] {
      DefaultSelectsFlagged(regs[1..]);
    }
  }

  /** A service info is a default root exactly when some flagged registration maps to it. */
  lemma {:induction false} FlaggedRootsMembership(regs: seq<Registration>, info: ServiceInfo)
    ensures info in FlaggedRoots(regs) <==>
      exists k :: 0 <= k < |regs| && regs[k].asResolutionRoot && regs[k].ToServiceInfo() == info
  {
    if regs != [] {
      FlaggedRootsMembership(regs[1..], info);
      if exists k :: 0 <= k < |regs| && regs[k].asResolutionRoot && regs[k].ToServiceInfo() == info {
        var k :| 0 <= k < |regs| && regs[k].asResolutionRoot && regs[k].ToServiceInfo() == info;
        if k > 0 {
          assert regs[1..][k - 1] == regs[k];
        }
      }
      if exists k :: 0 <= k < |regs[1..]| && regs[1..][k].asResolutionRoot && regs[1..][k].ToServiceInfo() == info {
        var k :| 0 <= k < |regs[1..]| && regs[1..][k].asResolutionRoot && regs[1..][k].ToServiceInfo() == info;
        assert regs[k + 1] == regs[1..][k];
      }
    }
  }

  /** Roots come in registration order: selecting over two runs of registrations concatenates. */
  lemma {:induction false} SelectManyAppend(a: seq<Registration>, b: seq<Registration>, select: Option<RootSelector>)
    ensures SelectMany(a + b, select) == SelectMany(a, select) + SelectMany(b, select)
  {
    if a != [] {
      assert (a + b)[0] == a[0];
      assert (a + b)[1..] == a[1..] + b;
      SelectManyAppend(a[1..], b, select);
    } else {
      assert a + b == b;
    }
  }

  /** A service info is selected exactly when some registration's selector output holds it. */
  lemma {:induction false} SelectManyMembership(regs: seq<Registration>, select: Option<RootSelector>, info: ServiceInfo)
    ensures info in SelectMany(regs, select) <==>
      exists k :: 0 <= k < |regs| && info in SelectorOutput(select, regs[k])
  {
    if regs != [] {
      SelectManyMembership(regs[1..], select, info);
      if exists k :: 0 <= k < |regs| && info in SelectorOutput(select, regs[k]) {
        var k :| 0 <= k < |regs| && info in SelectorOutput(select, regs[k]);
        if k > 0 {
          assert regs[1..][k - 1] == regs[k];
        }
      }
      if exists k :: 0 <= k < |regs[1..]| && info in SelectorOutput(select, regs[1..][k]) {
        var k :| 0 <= k < |regs[1..]| && info in SelectorOutput(select, regs[1..][k]);
        assert regs[k + 1] == regs[1..][k];
      }
    }
  }

  /**
   * With a selector or an explicit list, a service info is a root exactly
   * when a registration's selector output holds it or the explicit list does.
   */
  lemma SelectRootsMembership(regs: seq<Registration>, select: Option<RootSelector>,
                              resolutionRoots: Option<seq<ServiceInfo>>, info: ServiceInfo)
    ensures info in SelectRoots(regs, select, resolutionRoots) <==>
      (exists k :: 0 <= k < |regs| && info in SelectorOutput(select, regs[k]))
      || (resolutionRoots.Some? && info in resolutionRoots.value)
  {
    SelectManyMembership(regs, select, info);
  }

  /** The explicit list is kept verbatim, after the selected roots. */
  lemma ExplicitRootsLast(regs: seq<Registration>, select: Option<RootSelector>, resolutionRoots: seq<ServiceInfo>)
    ensures var r := SelectRoots(regs, select, Some(resolutionRoots));
      |r| >= |resolutionRoots| && r[|r| - |resolutionRoots|..] == resolutionRoots
  {
  }
}
