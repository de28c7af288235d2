/**
  The vetter utility package: which namespaces, pods, services and endpoints
  belong to the service mesh, pod and container queries, the fixed tables
  they rely on, and the note reported when the sidecar initializer is off.

  The Kubernetes listers are parameters: the namespace lister is the result
  of its one List call, the other listers are functions from a namespace
  name (and, for config maps, a resource name) to a result. The YAML decoder
  is a parameter `parse` as well.
 */
module Util {
  import opened Constants
  import opened Errors
  import opened Kube
  import opened Seqs

  /** Configuration of the sidecar initializer, as decoded from its config
      map. Only the fields that affect behaviour here are kept. */
  datatype InjectConfig = InjectConfig(
    policy: string,
    includeNamespaces: seq<string>,
    excludeNamespaces: seq<string>,
    initializerName: string)

  /** Fetches a config map by namespace and name. */
  type ConfigMapLister = (string, string) -> Result<ConfigMap>

  /** Decodes the YAML text of the initializer configuration. */
  type ConfigParser = string -> Result<InjectConfig>

  // ---------------------------------------------------------------------
  // Fixed tables

  /** Protocol names in pairs: the exact name, then the name followed by "-". */
  const IstioSupportedServicePrefix: seq<string> := [
    "http", "http-",
    "http2", "http2-",
    "grpc", "grpc-",
    "mongo", "mongo-",
    "redis", "redis-",
    "tcp", "tcp-"]

  /** The protocols the table above pairs up, one entry each. */
  const SupportedProtocols: seq<string> := ["http", "http2", "grpc", "mongo", "redis", "tcp"]

  const DefaultExempted: map<string, bool> := map[
    "kube-system" := true,
    "kube-public" := true,
    "istio-system" := true]

  /** The prefix table consists of one (name, name + "-") pair per protocol. */
  lemma PrefixTableIsPaired()
    ensures |IstioSupportedServicePrefix| == 2 * |SupportedProtocols|
    ensures forall k :: 0 <= k < |SupportedProtocols| ==>
      IstioSupportedServicePrefix[2 * k] == SupportedProtocols[k] &&
      IstioSupportedServicePrefix[2 * k + 1] == SupportedProtocols[k] + "-"
  {
  }

  // ---------------------------------------------------------------------
  // Exempted namespaces

  /** Whether a namespace is always left out of automatic sidecar injection.
      A name missing from the table reads as false, as a Go map does. */
  function ExemptedNamespace(ns: string): (r: bool)
    ensures r <==> ns == "kube-system" || ns == "kube-public" || ns == IstioNamespace
  {
    ns in DefaultExempted && DefaultExempted[ns]
  }

  /** The table has three keys, the exempted names. */
  lemma ExemptedKeys()
    ensures DefaultExempted.Keys == {"kube-system", "kube-public", "istio-system"}
    ensures |DefaultExempted.Keys| == 3
  {
  }

  /** The exempted namespaces, each once, in the unspecified order in which
      the table's keys are visited. */
  method DefaultExemptedNamespaces() returns (s: seq<string>)
    ensures |s| == 3
    ensures Distinct(s)
    ensures forall ns :: ns in s <==> ExemptedNamespace(ns)
  {
    ExemptedKeys();
    var a := new string[|DefaultExempted|];
    var i := 0;
    var pending := DefaultExempted.Keys;
    while pending != {}
      invariant 0 <= i <= a.Length
      invariant pending <= DefaultExempted.Keys
      invariant i + |pending| == a.Length
      invariant forall x :: x in a[..i] <==> x in DefaultExempted.Keys && x !in pending
      invariant Distinct(a[..i])
      decreases |pending|
    {
      var k :| k in pending;
      ghost var prev := a[..i];
      a[i] := k;
      assert a[..i + 1] == prev + [k];
      i := i + 1;
      pending := pending - {k};
    }
    assert a[..] == a[..i];
    s := a[..];
  }

  // ---------------------------------------------------------------------
  // Initializer configuration

  /** Reads the initializer configuration from the "istio-inject" config map
      in "istio-system": the lister's error if the map cannot be fetched, a
      missing-key error if the map has no "config" entry, otherwise whatever
      the decoder makes of that entry. */
  function GetInitializerConfig(cmLister: ConfigMapLister, parse: ConfigParser): (r: Result<InjectConfig>)
    ensures r.Ok? <==>
      && cmLister(IstioNamespace, IstioInitializerConfigMap).Ok?
      && IstioInitializerConfigMapKey in cmLister(IstioNamespace, IstioInitializerConfigMap).value.data
      && parse(cmLister(IstioNamespace, IstioInitializerConfigMap).value.data[IstioInitializerConfigMapKey]).Ok?
    ensures cmLister(IstioNamespace, IstioInitializerConfigMap).Err? ==>
      r == Err(cmLister(IstioNamespace, IstioInitializerConfigMap).error)
    ensures (cmLister(IstioNamespace, IstioInitializerConfigMap).Ok? &&
             IstioInitializerConfigMapKey !in cmLister(IstioNamespace, IstioInitializerConfigMap).value.data) ==>
      r == Err(MissingKeyError)
    ensures (cmLister(IstioNamespace, IstioInitializerConfigMap).Ok? &&
             IstioInitializerConfigMapKey in cmLister(IstioNamespace, IstioInitializerConfigMap).value.data) ==>
      r == parse(cmLister(IstioNamespace, IstioInitializerConfigMap).value.data[IstioInitializerConfigMapKey])
  {
    match cmLister(IstioNamespace, IstioInitializerConfigMap)
    case Err(e) => Err(e)
    case Ok(cm) =>
      if IstioInitializerConfigMapKey !in cm.data then Err(MissingKeyError)
      else parse(cm.data[IstioInitializerConfigMapKey])
  }

  // ---------------------------------------------------------------------
  // The disabled-initializer note

  /** The note's summary: the fixed opening, then the vetter id in quotes. */
  function DisabledSummary(vetterID: string): string {
    InitializerDisabledSummary + "\"" + vetterID + "\" vetter."
  }

  /** An INFO note when the error text reports the initializer config map as
      not found, and no note otherwise. */
  function IstioInitializerDisabledNote(e: string, vetterID: string, vetterType: string): (r: Option<Note>)
    ensures r.Some? <==> exists i :: OccursAt(e, InitializerDisabled, i)
    ensures r.Some? ==> r.value.noteType == vetterType && r.value.level == Info
    ensures r.Some? ==> r.value.summary == DisabledSummary(vetterID)
  {
    ContainsIff(e, InitializerDisabled);
    if Contains(e, InitializerDisabled) then
      Some(Note(vetterType, DisabledSummary(vetterID), Info))
    else
      None
  }

  /** The summary names the vetter: different ids give different summaries,
      and the id can be read back from between the fixed parts. */
  lemma DisabledSummaryNamesVetter(id1: string, id2: string)
    ensures InitializerDisabledSummary + "\"" <= DisabledSummary(id1)
    ensures DisabledSummary(id1)[|InitializerDisabledSummary| + 1 .. |DisabledSummary(id1)| - 9] == id1
    ensures DisabledSummary(id1) == DisabledSummary(id2) <==> id1 == id2
  {
  }

  // ---------------------------------------------------------------------
  // Service port names

  /** A port name Istio recognises: a supported protocol's name, or that
      name followed by "-" and anything. */
  ghost predicate IstioPortName(n: string) {
    exists p :: p in SupportedProtocols && (n == p || p + "-" <= n)
  }

  /** Walks the prefix table two entries at a time. */
  method ServicePortPrefixed(n: string) returns (r: bool)
    ensures r <==> IstioPortName(n)
  {
    PrefixTableIsPaired();
    var i := 0;
    while i < |IstioSupportedServicePrefix|
      invariant 0 <= i <= |IstioSupportedServicePrefix| && i % 2 == 0
      invariant forall k :: 0 <= k < i / 2 ==>
        n != SupportedProtocols[k] && !(SupportedProtocols[k] + "-" <= n)
    {
      if n == IstioSupportedServicePrefix[i] || IstioSupportedServicePrefix[i + 1] <= n {
        assert SupportedProtocols[i / 2] in SupportedProtocols;
        return true;
      }
      i := i + 2;
    }
    return false;
  }

  /** Examples of recognised and rejected port names. */
  lemma PortNameExamples()
    ensures IstioPortName("http")
    ensures IstioPortName("http-foo")
    ensures IstioPortName("grpc-web")
    ensures IstioPortName("http2")
    ensures !IstioPortName("httpz")
    ensures !IstioPortName("")
    ensures !IstioPortName("udp")
  {
    assert "http" in SupportedProtocols;
    assert "grpc" in SupportedProtocols;
    assert "http2" in SupportedProtocols;
    assert "http" + "-" <= "http-foo";
    assert "grpc" + "-" <= "grpc-web";
    forall p | p in SupportedProtocols
      ensures "httpz" != p && !(p + "-" <= "httpz")
      ensures "" != p && !(p + "-" <= "")
      ensures "udp" != p && !(p + "-" <= "udp")
    {
      assert (p + "-")[|p|] == '-';
    }
  }

  // ---------------------------------------------------------------------
  // Pod and container queries

  /** A pod carries the sidecar when it has the initializer's status
      annotation and a container named "istio-proxy". */
  predicate IsSidecarInjected(p: Pod) {
    && IstioInitializerPodAnnotation in p.annotations
    && exists c :: c in p.spec.containers && c.name == IstioProxyContainerName
  }

  method SidecarInjected(p: Pod) returns (r: bool)
    ensures r <==> IsSidecarInjected(p)
  {
    if IstioInitializerPodAnnotation !in p.annotations {
      return false;
    }
    var cList := p.spec.containers;
    for i := 0 to |cList|
      invariant forall j :: 0 <= j < i ==> cList[j].name != IstioProxyContainerName
    {
      if cList[i].name == IstioProxyContainerName {
        return true;
      }
    }
    return false;
  }

  /** Either half of the condition alone is not enough. */
  lemma SidecarNeedsBoth(p: Pod)
    ensures IstioInitializerPodAnnotation !in p.annotations ==> !IsSidecarInjected(p)
    ensures (forall j :: 0 <= j < |p.spec.containers| ==> p.spec.containers[j].name != IstioProxyContainerName)
      ==> !IsSidecarInjected(p)
  {
  }

  /** The pod with the annotation and containers "app" and "istio-proxy" is
      injected; with the annotation and only "app" it is not. */
  lemma SidecarExamples(annotations: map<string, string>, app: Container, proxy: Container)
    requires IstioInitializerPodAnnotation in annotations
    requires app.name == "app" && proxy.name == IstioProxyContainerName
    ensures IsSidecarInjected(Pod("p", "default", annotations, PodSpec([app, proxy], [])))
    ensures !IsSidecarInjected(Pod("p", "default", annotations, PodSpec([app], [])))
  {
  }

  /** Reference definition of the image lookup: the image of the first
      container with the given name. */
  ghost function ImageOf(n: string, cList: seq<Container>): Result<string>
    decreases |cList|
  {
    if cList == [] then Err(ContainerNotFoundError(n))
    else if cList[0].name == n then Ok(cList[0].image)
    else ImageOf(n, cList[1..])
  }

  /** The lookup fails exactly when no container has the name, and otherwise
      returns the image of the first one that has it. */
  lemma {:induction false} ImageOfFirstMatch(n: string, cList: seq<Container>)
    ensures ImageOf(n, cList).Err? <==> forall j :: 0 <= j < |cList| ==> cList[j].name != n
    ensures ImageOf(n, cList).Err? ==> ImageOf(n, cList).error == ContainerNotFoundError(n)
    ensures ImageOf(n, cList).Ok? ==> exists i ::
      && 0 <= i < |cList| && cList[i].name == n
      && ImageOf(n, cList).value == cList[i].image
      && forall j :: 0 <= j < i ==> cList[j].name != n
    decreases |cList|
  {
    if cList != [] && cList[0].name != n {
      ImageOfFirstMatch(n, cList[1..]);
      if ImageOf(n, cList).Ok? {
        var i :| 0 <= i < |cList[1..]| && cList[1..][i].name == n && ImageOf(n, cList[1..]).value == cList[1..][i].image
          && forall j :: 0 <= j < i ==> cList[1..][j].name != n;
        assert cList[i + 1].name == n;
        assert forall j :: 0 <= j < i + 1 ==> cList[j].name != n by {
          forall j | 0 <= j < i + 1 ensures cList[j].name != n {
            if j > 0 { assert cList[j] == cList[1..][j - 1]; }
          }
        }
      }
      if forall j :: 0 <= j < |cList[1..]| ==> cList[1..][j].name != n {
        assert forall j :: 0 <= j < |cList| ==> cList[j].name != n by {
          forall j | 0 <= j < |cList| ensures cList[j].name != n {
            if j > 0 { assert cList[j] == cList[1..][j - 1]; }
          }
        }
      }
    } else if cList != [] {
      assert 0 <= 0 < |cList| && cList[0].name == n;
    }
  }

  method ImageFromContainers(n: string, cList: seq<Container>) returns (r: Result<string>)
    ensures r == ImageOf(n, cList)
  {
    for i := 0 to |cList|
      invariant ImageOf(n, cList[i..]) == ImageOf(n, cList)
    {
      assert cList[i..][1..] == cList[i + 1..];
      if cList[i].name == n {
        return Ok(cList[i].image);
      }
    }
    return Err(ContainerNotFoundError(n));
  }

  /** Image of the regular container named n. */
  method Image(n: string, s: PodSpec) returns (r: Result<string>)
    ensures r == ImageOf(n, s.containers)
  {
    r := ImageFromContainers(n, s.containers);
  }

  /** Image of the init container named n. */
  method InitImage(n: string, s: PodSpec) returns (r: Result<string>)
    ensures r == ImageOf(n, s.initContainers)
  {
    r := ImageFromContainers(n, s.initContainers);
  }

  method ExistsInStringSlice(e: string, list: seq<string>) returns (r: bool)
    ensures r <==> e in list
  {
    for i := 0 to |list|
      invariant e !in list[..i]
    {
      if e == list[i] {
        return true;
      }
      assert list[..i + 1] == list[..i] + [list[i]];
    }
    assert list[..|list|] == list;
    return false;
  }

  // ---------------------------------------------------------------------
  // Namespaces in the mesh

  /** The membership rule for one namespace name: not exempted, not excluded
      by a non-empty exclude list, and admitted by the include list when that
      list is non-empty (its empty-string entry admits every name). */
  predicate InMesh(name: string, cfg: InjectConfig) {
    && !ExemptedNamespace(name)
    && (|cfg.excludeNamespaces| == 0 || name !in cfg.excludeNamespaces)
    && (|cfg.includeNamespaces| == 0 || NamespaceAll in cfg.includeNamespaces || name in cfg.includeNamespaces)
  }

  function InMeshFilter(cfg: InjectConfig): Namespace -> bool {
    (n: Namespace) => InMesh(n.name, cfg)
  }

  /** Specification of ListNamespacesInMesh: the namespace lister's error,
      else the configuration error, else the listed namespaces that pass the
      membership rule. */
  ghost function NamespacesInMesh(listed: Result<seq<Namespace>>, cmLister: ConfigMapLister, parse: ConfigParser)
    : Result<seq<Namespace>>
  {
    match listed
    case Err(e) => Err(e)
    case Ok(ns) =>
      match GetInitializerConfig(cmLister, parse)
      case Err(e) => Err(e)
      case Ok(cfg) => Ok(Filter(ns, InMeshFilter(cfg)))
  }

  method ListNamespacesInMesh(listed: Result<seq<Namespace>>, cmLister: ConfigMapLister, parse: ConfigParser)
    returns (r: Result<seq<Namespace>>)
    ensures r == NamespacesInMesh(listed, cmLister, parse)
  {
    if listed.Err? {
      return Err(listed.error);
    }
    var ns := listed.value;
    var cfgResult := GetInitializerConfig(cmLister, parse);
    if cfgResult.Err? {
      return Err(cfgResult.error);
    }
    var cfg := cfgResult.value;
    ghost var keep := InMeshFilter(cfg);
    var namespaces: seq<Namespace> := [];
    for i := 0 to |ns|
      invariant namespaces == Filter(ns[..i], keep)
    {
      var n := ns[i];
      assert ns[..i + 1][..i] == ns[..i];
      if ExemptedNamespace(n.name) {
        continue;
      }
      if |cfg.excludeNamespaces| > 0 {
        var excluded := ExistsInStringSlice(n.name, cfg.excludeNamespaces);
        if excluded {
          continue;
        }
      }
      if |cfg.includeNamespaces| > 0 {
        var included := ExistsInStringSlice(NamespaceAll, cfg.includeNamespaces);
        if !included {
          included := ExistsInStringSlice(n.name, cfg.includeNamespaces);
        }
        if !included {
          continue;
        }
      }
      namespaces := namespaces + [n];
    }
    assert ns[..|ns|] == ns;
    return Ok(namespaces);
  }

  /** The result is an error exactly when listing namespaces or reading the
      configuration fails, and it is the first of those errors. */
  lemma NamespacesInMeshErrors(listed: Result<seq<Namespace>>, cmLister: ConfigMapLister, parse: ConfigParser)
    ensures listed.Err? ==> NamespacesInMesh(listed, cmLister, parse) == Err(listed.error)
    ensures listed.Ok? && GetInitializerConfig(cmLister, parse).Err? ==>
      NamespacesInMesh(listed, cmLister, parse) == Err(GetInitializerConfig(cmLister, parse).error)
    ensures NamespacesInMesh(listed, cmLister, parse).Ok? <==>
      listed.Ok? && GetInitializerConfig(cmLister, parse).Ok?
  {
  }

  /** On success the mesh namespaces are the listed namespaces, in order,
      minus some; a namespace is kept exactly when all three conditions of
      the rule hold; and no namespace is repeated that was not repeated in
      the listing. */
  lemma NamespacesInMeshKept(listed: Result<seq<Namespace>>, cmLister: ConfigMapLister, parse: ConfigParser)
    requires NamespacesInMesh(listed, cmLister, parse).Ok?
    ensures IsSubsequence(NamespacesInMesh(listed, cmLister, parse).value, listed.value)
    ensures Distinct(listed.value) ==> Distinct(NamespacesInMesh(listed, cmLister, parse).value)
    ensures forall j :: 0 <= j < |listed.value| ==>
      var cfg := GetInitializerConfig(cmLister, parse).value;
      var name := listed.value[j].name;
      (listed.value[j] in NamespacesInMesh(listed, cmLister, parse).value <==>
        && !ExemptedNamespace(name)
        && (|cfg.excludeNamespaces| == 0 || name !in cfg.excludeNamespaces)
        && (|cfg.includeNamespaces| == 0 || "" in cfg.includeNamespaces || name in cfg.includeNamespaces))
  {
    var cfg := GetInitializerConfig(cmLister, parse).value;
    var out := NamespacesInMesh(listed, cmLister, parse).value;
    assert out == Filter(listed.value, InMeshFilter(cfg));
    FilterKeeps(listed.value, InMeshFilter(cfg));
    FilterIsSubsequence(listed.value, InMeshFilter(cfg));
    if Distinct(listed.value) {
      FilterDistinct(listed.value, InMeshFilter(cfg));
    }
    forall j | 0 <= j < |listed.value|
      ensures listed.value[j] in out <==> InMesh(listed.value[j].name, cfg)
    {
      if listed.value[j] in out {
        var k :| 0 <= k < |out| && out[k] == listed.value[j];
        assert InMeshFilter(cfg)(out[k]);
      }
    }
  }

  /** A namespace on the exclude list is never in the mesh, even when the
      include list names it too. */
  lemma ExcludeOverridesInclude(listed: Result<seq<Namespace>>, cmLister: ConfigMapLister, parse: ConfigParser, name: string)
    requires NamespacesInMesh(listed, cmLister, parse).Ok?
    requires name in GetInitializerConfig(cmLister, parse).value.excludeNamespaces
    ensures forall n :: n in NamespacesInMesh(listed, cmLister, parse).value ==> n.name != name
  {
    var cfg := GetInitializerConfig(cmLister, parse).value;
    var out := NamespacesInMesh(listed, cmLister, parse).value;
    assert out == Filter(listed.value, InMeshFilter(cfg));
    FilterKeeps(listed.value, InMeshFilter(cfg));
    forall n | n in out ensures n.name != name {
      var k :| 0 <= k < |out| && out[k] == n;
      assert InMeshFilter(cfg)(out[k]);
    }
  }

  /** With no include list, or one that holds the all-namespaces entry, and
      no exclude list, the mesh is every listed namespace that is not
      exempted. */
  lemma NoListsKeepAllButExempted(listed: Result<seq<Namespace>>, cmLister: ConfigMapLister, parse: ConfigParser)
    requires NamespacesInMesh(listed, cmLister, parse).Ok?
    requires GetInitializerConfig(cmLister, parse).value.excludeNamespaces == []
    requires GetInitializerConfig(cmLister, parse).value.includeNamespaces == [] ||
             NamespaceAll in GetInitializerConfig(cmLister, parse).value.includeNamespaces
    ensures NamespacesInMesh(listed, cmLister, parse).value ==
      Filter(listed.value, (n: Namespace) => !ExemptedNamespace(n.name))
  {
    var cfg := GetInitializerConfig(cmLister, parse).value;
    FilterAgreeing(listed.value, InMeshFilter(cfg), (n: Namespace) => !ExemptedNamespace(n.name));
  }

  // ---------------------------------------------------------------------
  // Pods, services and endpoints in the mesh

  /** The per-namespace listing results for the namespaces ns, in order, each
      filtered by keep and concatenated; the first listing error instead, if
      there is one. */
  ghost function Gather<T>(ns: seq<Namespace>, lister: string -> Result<seq<T>>, keep: T -> bool): Result<seq<T>>
    decreases |ns|
  {
    if ns == [] then Ok([])
    else
      match Gather(ns[..|ns| - 1], lister, keep)
      case Err(e) => Err(e)
      case Ok(acc) =>
        match lister(ns[|ns| - 1].name)
        case Err(e) => Err(e)
        case Ok(items) => Ok(acc + Filter(items, keep))
  }

  /** Once the namespaces up to k have produced an error, more namespaces do
      not change the result. */
  lemma {:induction false} GatherErrorStays<T>(ns: seq<Namespace>, k: nat, lister: string -> Result<seq<T>>, keep: T -> bool)
    requires k <= |ns|
    requires Gather(ns[..k], lister, keep).Err?
    ensures Gather(ns, lister, keep) == Gather(ns[..k], lister, keep)
    decreases |ns| - k
  {
    if k < |ns| {
      assert ns[..k + 1][..k] == ns[..k];
      GatherErrorStays(ns, k + 1, lister, keep);
    } else {
      assert ns[..k] == ns;
    }
  }

  /** One more successfully listed namespace appends its filtered listing. */
  lemma GatherStep<T>(ns: seq<Namespace>, i: nat, lister: string -> Result<seq<T>>, keep: T -> bool,
                      acc: seq<T>, items: seq<T>)
    requires i < |ns|
    requires Gather(ns[..i], lister, keep) == Ok(acc)
    requires lister(ns[i].name) == Ok(items)
    ensures Gather(ns[..i + 1], lister, keep) == Ok(acc + Filter(items, keep))
  {
    assert ns[..i + 1][..i] == ns[..i];
  }

  /** Gathering fails exactly when some namespace's listing fails, and then
      with the error of the first namespace whose listing fails. */
  lemma {:induction false} GatherFirstError<T>(ns: seq<Namespace>, lister: string -> Result<seq<T>>, keep: T -> bool)
    ensures Gather(ns, lister, keep).Ok? <==> forall j :: 0 <= j < |ns| ==> lister(ns[j].name).Ok?
    ensures Gather(ns, lister, keep).Err? ==> exists i ::
      && 0 <= i < |ns|
      && lister(ns[i].name) == Err(Gather(ns, lister, keep).error)
      && forall j :: 0 <= j < i ==> lister(ns[j].name).Ok?
    decreases |ns|
  {
    if ns != [] {
      var init := ns[..|ns| - 1];
      GatherFirstError(init, lister, keep);
      assert forall j :: 0 <= j < |init| ==> init[j] == ns[j];
      var last := |ns| - 1;
      if Gather(init, lister, keep).Ok? && lister(ns[last].name).Err? {
        assert 0 <= last < |ns| && lister(ns[last].name) == Err(Gather(ns, lister, keep).error);
      }
    }
  }

  /** What gathering returns: x is in the result exactly when it was listed
      for some of the namespaces and passes keep. */
  lemma {:induction false} GatherMembers<T>(ns: seq<Namespace>, lister: string -> Result<seq<T>>, keep: T -> bool)
    requires Gather(ns, lister, keep).Ok?
    ensures forall x :: x in Gather(ns, lister, keep).value ==> keep(x)
    ensures forall x :: x in Gather(ns, lister, keep).value ==>
      exists i :: 0 <= i < |ns| && lister(ns[i].name).Ok? && x in lister(ns[i].name).value
    ensures forall i, k ::
      (0 <= i < |ns| && lister(ns[i].name).Ok? && 0 <= k < |lister(ns[i].name).value| &&
       keep(lister(ns[i].name).value[k])) ==> lister(ns[i].name).value[k] in Gather(ns, lister, keep).value
    decreases |ns|
  {
    if ns != [] {
      var init := ns[..|ns| - 1];
      var last := |ns| - 1;
      GatherMembers(init, lister, keep);
      var acc := Gather(init, lister, keep).value;
      var items := lister(ns[last].name).value;
      var out := Gather(ns, lister, keep).value;
      assert out == acc + Filter(items, keep);
      FilterKeeps(items, keep);
      forall x | x in out
        ensures keep(x)
        ensures exists i :: 0 <= i < |ns| && lister(ns[i].name).Ok? && x in lister(ns[i].name).value
      {
        if x in acc {
          var i :| 0 <= i < |init| && lister(init[i].name).Ok? && x in lister(init[i].name).value;
          assert init[i] == ns[i];
        } else {
          assert x in Filter(items, keep);
          var k :| 0 <= k < |Filter(items, keep)| && Filter(items, keep)[k] == x;
          assert x in items && keep(x);
        }
      }
      forall i, k | 0 <= i < |ns| && lister(ns[i].name).Ok? && 0 <= k < |lister(ns[i].name).value| &&
        keep(lister(ns[i].name).value[k])
        ensures lister(ns[i].name).value[k] in out
      {
        if i < last {
          assert init[i] == ns[i];
        }
      }
    }
  }

  /** No two of the namespaces have the same name. */
  ghost predicate DistinctNames(ns: seq<Namespace>) {
    forall i, j :: 0 <= i < j < |ns| ==> ns[i].name != ns[j].name
  }

  /** A lister that behaves as a Kubernetes lister does: each successful
      listing repeats no object, and every object it lists for a namespace
      records that namespace, as read by nsOf. */
  ghost predicate ListsOwnObjects<T>(lister: string -> Result<seq<T>>, nsOf: T -> string) {
    forall name :: lister(name).Ok? ==>
      && Distinct(lister(name).value)
      && forall k :: 0 <= k < |lister(name).value| ==> nsOf(lister(name).value[k]) == name
  }

  /** Gathering over namespaces with distinct names, from such a lister,
      returns no object twice. */
  lemma {:induction false} GatherDistinct<T>(ns: seq<Namespace>, lister: string -> Result<seq<T>>, keep: T -> bool,
                                             nsOf: T -> string)
    requires DistinctNames(ns)
    requires ListsOwnObjects(lister, nsOf)
    requires Gather(ns, lister, keep).Ok?
    ensures Distinct(Gather(ns, lister, keep).value)
    decreases |ns|
  {
    if ns != [] {
      var init := ns[..|ns| - 1];
      var last := |ns| - 1;
      assert forall j :: 0 <= j < |init| ==> init[j] == ns[j];
      GatherDistinct(init, lister, keep, nsOf);
      GatherMembers(init, lister, keep);
      var acc := Gather(init, lister, keep).value;
      var items := lister(ns[last].name).value;
      var kept := Filter(items, keep);
      assert Gather(ns, lister, keep).value == acc + kept;
      FilterDistinct(items, keep);
      FilterKeeps(items, keep);
      forall a, b | 0 <= a < |acc| && 0 <= b < |kept| ensures acc[a] != kept[b] {
        var x := acc[a];
        assert x in acc;
        var i :| 0 <= i < |init| && lister(init[i].name).Ok? && x in lister(init[i].name).value;
        var k :| 0 <= k < |lister(init[i].name).value| && lister(init[i].name).value[k] == x;
        assert nsOf(x) == ns[i].name;
        var m :| 0 <= m < |items| && items[m] == kept[b];
        assert nsOf(kept[b]) == ns[last].name;
      }
      DistinctAppend(acc, kept);
    }
  }

  /** Namespaces differ exactly when their names do. */
  lemma DistinctNamespacesHaveDistinctNames(ns: seq<Namespace>)
    requires Distinct(ns)
    ensures DistinctNames(ns)
  {
  }

  function PodNamespace(p: Pod): string { p.namespace }

  function ServiceNamespace(s: Service): string { s.namespace }

  function EndpointsNamespace(e: Endpoints): string { e.namespace }

  function NotKubernetesService(s: Service): bool {
    s.name != KubernetesServiceName
  }

  function NotKubernetesEndpoints(e: Endpoints): bool {
    e.name != KubernetesServiceName
  }

  /** Specification of ListPodsInMesh. */
  ghost function PodsInMesh(listed: Result<seq<Namespace>>, cmLister: ConfigMapLister, parse: ConfigParser,
                            podLister: string -> Result<seq<Pod>>): Result<seq<Pod>>
  {
    match NamespacesInMesh(listed, cmLister, parse)
    case Err(e) => Err(e)
    case Ok(ns) => Gather(ns, podLister, IsSidecarInjected)
  }

  /** Specification of ListServicesInMesh. */
  ghost function ServicesInMesh(listed: Result<seq<Namespace>>, cmLister: ConfigMapLister, parse: ConfigParser,
                                svcLister: string -> Result<seq<Service>>): Result<seq<Service>>
  {
    match NamespacesInMesh(listed, cmLister, parse)
    case Err(e) => Err(e)
    case Ok(ns) => Gather(ns, svcLister, NotKubernetesService)
  }

  /** Specification of ListEndpointsInMesh. */
  ghost function EndpointsInMesh(listed: Result<seq<Namespace>>, cmLister: ConfigMapLister, parse: ConfigParser,
                                 epLister: string -> Result<seq<Endpoints>>): Result<seq<Endpoints>>
  {
    match NamespacesInMesh(listed, cmLister, parse)
    case Err(e) => Err(e)
    case Ok(ns) => Gather(ns, epLister, NotKubernetesEndpoints)
  }

  method ListPodsInMesh(listed: Result<seq<Namespace>>, cmLister: ConfigMapLister, parse: ConfigParser,
                        podLister: string -> Result<seq<Pod>>)
    returns (r: Result<seq<Pod>>)
    ensures r == PodsInMesh(listed, cmLister, parse, podLister)
  {
    var nsResult := ListNamespacesInMesh(listed, cmLister, parse);
    if nsResult.Err? {
      return Err(nsResult.error);
    }
    var ns := nsResult.value;
    var pods: seq<Pod> := [];
    for i := 0 to |ns|
      invariant Gather(ns[..i], podLister, IsSidecarInjected) == Ok(pods)
    {
      var podList := podLister(ns[i].name);
      if podList.Err? {
        assert ns[..i + 1][..i] == ns[..i];
        GatherErrorStays(ns, i + 1, podLister, IsSidecarInjected);
        return Err(podList.error);
      }
      var items := podList.value;
      ghost var before := pods;
      for j := 0 to |items|
        invariant pods == before + Filter(items[..j], IsSidecarInjected)
      {
        FilterStep(items, j, IsSidecarInjected);
        var injected := SidecarInjected(items[j]);
        if injected {
          pods := pods + [items[j]];
        }
      }
      assert items[..|items|] == items;
      GatherStep(ns, i, podLister, IsSidecarInjected, before, items);
    }
    assert ns[..|ns|] == ns;
    return Ok(pods);
  }

  method ListServicesInMesh(listed: Result<seq<Namespace>>, cmLister: ConfigMapLister, parse: ConfigParser,
                            svcLister: string -> Result<seq<Service>>)
    returns (r: Result<seq<Service>>)
    ensures r == ServicesInMesh(listed, cmLister, parse, svcLister)
  {
    var nsResult := ListNamespacesInMesh(listed, cmLister, parse);
    if nsResult.Err? {
      return Err(nsResult.error);
    }
    var ns := nsResult.value;
    var services: seq<Service> := [];
    for i := 0 to |ns|
      invariant Gather(ns[..i], svcLister, NotKubernetesService) == Ok(services)
    {
      var serviceList := svcLister(ns[i].name);
      if serviceList.Err? {
        assert ns[..i + 1][..i] == ns[..i];
        GatherErrorStays(ns, i + 1, svcLister, NotKubernetesService);
        return Err(serviceList.error);
      }
      var items := serviceList.value;
      ghost var before := services;
      for j := 0 to |items|
        invariant services == before + Filter(items[..j], NotKubernetesService)
      {
        FilterStep(items, j, NotKubernetesService);
        if items[j].name != KubernetesServiceName {
          services := services + [items[j]];
        }
      }
      assert items[..|items|] == items;
      GatherStep(ns, i, svcLister, NotKubernetesService, before, items);
    }
    assert ns[..|ns|] == ns;
    return Ok(services);
  }

  method ListEndpointsInMesh(listed: Result<seq<Namespace>>, cmLister: ConfigMapLister, parse: ConfigParser,
                             epLister: string -> Result<seq<Endpoints>>)
    returns (r: Result<seq<Endpoints>>)
    ensures r == EndpointsInMesh(listed, cmLister, parse, epLister)
  {
    var nsResult := ListNamespacesInMesh(listed, cmLister, parse);
    if nsResult.Err? {
      return Err(nsResult.error);
    }
    var ns := nsResult.value;
    var endpoints: seq<Endpoints> := [];
    for i := 0 to |ns|
      invariant Gather(ns[..i], epLister, NotKubernetesEndpoints) == Ok(endpoints)
    {
      var endpointList := epLister(ns[i].name);
      if endpointList.Err? {
        assert ns[..i + 1][..i] == ns[..i];
        GatherErrorStays(ns, i + 1, epLister, NotKubernetesEndpoints);
        return Err(endpointList.error);
      }
      var items := endpointList.value;
      ghost var before := endpoints;
      for j := 0 to |items|
        invariant endpoints == before + Filter(items[..j], NotKubernetesEndpoints)
      {
        FilterStep(items, j, NotKubernetesEndpoints);
        if items[j].name != KubernetesServiceName {
          endpoints := endpoints + [items[j]];
        }
      }
      assert items[..|items|] == items;
      GatherStep(ns, i, epLister, NotKubernetesEndpoints, before, items);
    }
    assert ns[..|ns|] == ns;
    return Ok(endpoints);
  }

  // ---------------------------------------------------------------------
  // What the list builders promise

  /** Pods in the mesh: the namespace filter's error is passed on; otherwise
      the result fails exactly when some mesh namespace's pod listing fails;
      every pod returned carries the sidecar and was listed in a mesh
      namespace, and every injected pod listed in a mesh namespace is
      returned. */
  lemma PodsInMeshProperties(listed: Result<seq<Namespace>>, cmLister: ConfigMapLister, parse: ConfigParser,
                             podLister: string -> Result<seq<Pod>>)
    ensures NamespacesInMesh(listed, cmLister, parse).Err? ==>
      PodsInMesh(listed, cmLister, parse, podLister) == Err(NamespacesInMesh(listed, cmLister, parse).error)
    ensures NamespacesInMesh(listed, cmLister, parse).Ok? ==>
      var mesh := NamespacesInMesh(listed, cmLister, parse).value;
      && (PodsInMesh(listed, cmLister, parse, podLister).Ok? <==>
          forall j :: 0 <= j < |mesh| ==> podLister(mesh[j].name).Ok?)
      && (PodsInMesh(listed, cmLister, parse, podLister).Err? ==> exists i ::
          0 <= i < |mesh| && podLister(mesh[i].name) == Err(PodsInMesh(listed, cmLister, parse, podLister).error))
    ensures PodsInMesh(listed, cmLister, parse, podLister).Ok? ==>
      var mesh := NamespacesInMesh(listed, cmLister, parse).value;
      var pods := PodsInMesh(listed, cmLister, parse, podLister).value;
      && (forall p :: p in pods ==> IsSidecarInjected(p))
      && (forall p :: p in pods ==>
          exists i :: 0 <= i < |mesh| && podLister(mesh[i].name).Ok? && p in podLister(mesh[i].name).value)
      && (forall i, k ::
          (0 <= i < |mesh| && podLister(mesh[i].name).Ok? && 0 <= k < |podLister(mesh[i].name).value| &&
           IsSidecarInjected(podLister(mesh[i].name).value[k])) ==> podLister(mesh[i].name).value[k] in pods)
    ensures (PodsInMesh(listed, cmLister, parse, podLister).Ok? && Distinct(listed.value) &&
             ListsOwnObjects(podLister, PodNamespace)) ==>
      Distinct(PodsInMesh(listed, cmLister, parse, podLister).value)
  {
    if NamespacesInMesh(listed, cmLister, parse).Ok? {
      var mesh := NamespacesInMesh(listed, cmLister, parse).value;
      GatherFirstError(mesh, podLister, IsSidecarInjected);
      if Gather(mesh, podLister, IsSidecarInjected).Ok? {
        GatherMembers(mesh, podLister, IsSidecarInjected);
        if Distinct(listed.value) && ListsOwnObjects(podLister, PodNamespace) {
          NamespacesInMeshKept(listed, cmLister, parse);
          DistinctNamespacesHaveDistinctNames(mesh);
          GatherDistinct(mesh, podLister, IsSidecarInjected, PodNamespace);
        }
      }
    }
  }

  /** Services in the mesh: the namespace filter's error is passed on;
      otherwise the result fails exactly when some mesh namespace's service
      listing fails; no service returned is named "kubernetes", each was
      listed in a mesh namespace, and every other service listed in a mesh
      namespace is returned. */
  lemma ServicesInMeshProperties(listed: Result<seq<Namespace>>, cmLister: ConfigMapLister, parse: ConfigParser,
                                 svcLister: string -> Result<seq<Service>>)
    ensures NamespacesInMesh(listed, cmLister, parse).Err? ==>
      ServicesInMesh(listed, cmLister, parse, svcLister) == Err(NamespacesInMesh(listed, cmLister, parse).error)
    ensures NamespacesInMesh(listed, cmLister, parse).Ok? ==>
      var mesh := NamespacesInMesh(listed, cmLister, parse).value;
      && (ServicesInMesh(listed, cmLister, parse, svcLister).Ok? <==>
          forall j :: 0 <= j < |mesh| ==> svcLister(mesh[j].name).Ok?)
      && (ServicesInMesh(listed, cmLister, parse, svcLister).Err? ==> exists i ::
          0 <= i < |mesh| && svcLister(mesh[i].name) == Err(ServicesInMesh(listed, cmLister, parse, svcLister).error))
    ensures ServicesInMesh(listed, cmLister, parse, svcLister).Ok? ==>
      var mesh := NamespacesInMesh(listed, cmLister, parse).value;
      var services := ServicesInMesh(listed, cmLister, parse, svcLister).value;
      && (forall s :: s in services ==> s.name != "kubernetes")
      && (forall s :: s in services ==>
          exists i :: 0 <= i < |mesh| && svcLister(mesh[i].name).Ok? && s in svcLister(mesh[i].name).value)
      && (forall i, k ::
          (0 <= i < |mesh| && svcLister(mesh[i].name).Ok? && 0 <= k < |svcLister(mesh[i].name).value| &&
           svcLister(mesh[i].name).value[k].name != "kubernetes") ==> svcLister(mesh[i].name).value[k] in services)
    ensures (ServicesInMesh(listed, cmLister, parse, svcLister).Ok? && Distinct(listed.value) &&
             ListsOwnObjects(svcLister, ServiceNamespace)) ==>
      Distinct(ServicesInMesh(listed, cmLister, parse, svcLister).value)
  {
    if NamespacesInMesh(listed, cmLister, parse).Ok? {
      var mesh := NamespacesInMesh(listed, cmLister, parse).value;
      GatherFirstError(mesh, svcLister, NotKubernetesService);
      if Gather(mesh, svcLister, NotKubernetesService).Ok? {
        GatherMembers(mesh, svcLister, NotKubernetesService);
        if Distinct(listed.value) && ListsOwnObjects(svcLister, ServiceNamespace) {
          NamespacesInMeshKept(listed, cmLister, parse);
          DistinctNamespacesHaveDistinctNames(mesh);
          GatherDistinct(mesh, svcLister, NotKubernetesService, ServiceNamespace);
        }
      }
    }
  }

  /** Endpoints in the mesh: the same promises as for services. */
  lemma EndpointsInMeshProperties(listed: Result<seq<Namespace>>, cmLister: ConfigMapLister, parse: ConfigParser,
                                  epLister: string -> Result<seq<Endpoints>>)
    ensures NamespacesInMesh(listed, cmLister, parse).Err? ==>
      EndpointsInMesh(listed, cmLister, parse, epLister) == Err(NamespacesInMesh(listed, cmLister, parse).error)
    ensures NamespacesInMesh(listed, cmLister, parse).Ok? ==>
      var mesh := NamespacesInMesh(listed, cmLister, parse).value;
      && (EndpointsInMesh(listed, cmLister, parse, epLister).Ok? <==>
          forall j :: 0 <= j < |mesh| ==> epLister(mesh[j].name).Ok?)
      && (EndpointsInMesh(listed, cmLister, parse, epLister).Err? ==> exists i ::
          0 <= i < |mesh| && epLister(mesh[i].name) == Err(EndpointsInMesh(listed, cmLister, parse, epLister).error))
    ensures EndpointsInMesh(listed, cmLister, parse, epLister).Ok? ==>
      var mesh := NamespacesInMesh(listed, cmLister, parse).value;
      var endpoints := EndpointsInMesh(listed, cmLister, parse, epLister).value;
      && (forall e :: e in endpoints ==> e.name != "kubernetes")
      && (forall e :: e in endpoints ==>
          exists i :: 0 <= i < |mesh| && epLister(mesh[i].name).Ok? && e in epLister(mesh[i].name).value)
      && (forall i, k ::
          (0 <= i < |mesh| && epLister(mesh[i].name).Ok? && 0 <= k < |epLister(mesh[i].name).value| &&
           epLister(mesh[i].name).value[k].name != "kubernetes") ==> epLister(mesh[i].name).value[k] in endpoints)
    ensures (EndpointsInMesh(listed, cmLister, parse, epLister).Ok? && Distinct(listed.value) &&
             ListsOwnObjects(epLister, EndpointsNamespace)) ==>
      Distinct(EndpointsInMesh(listed, cmLister, parse, epLister).value)
  {
    if NamespacesInMesh(listed, cmLister, parse).Ok? {
      var mesh := NamespacesInMesh(listed, cmLister, parse).value;
      GatherFirstError(mesh, epLister, NotKubernetesEndpoints);
      if Gather(mesh, epLister, NotKubernetesEndpoints).Ok? {
        GatherMembers(mesh, epLister, NotKubernetesEndpoints);
        if Distinct(listed.value) && ListsOwnObjects(epLister, EndpointsNamespace) {
          NamespacesInMeshKept(listed, cmLister, parse);
          DistinctNamespacesHaveDistinctNames(mesh);
          GatherDistinct(mesh, epLister, NotKubernetesEndpoints, EndpointsNamespace);
        }
      }
    }
  }

  /** When the config map lister reports the initializer config map as not
      found, the namespace filter fails with that error, and turning the
      error's text into a note gives the INFO note naming the vetter. */
  lemma MissingInitializerGivesNote(listed: Result<seq<Namespace>>, cmLister: ConfigMapLister, parse: ConfigParser,
                                    pre: string, post: string, vetterID: string, vetterType: string)
    requires listed.Ok?
    requires cmLister(IstioNamespace, IstioInitializerConfigMap) == Err(ListerError(pre + InitializerDisabled + post))
    ensures NamespacesInMesh(listed, cmLister, parse).Err?
    ensures IstioInitializerDisabledNote(NamespacesInMesh(listed, cmLister, parse).error.Message(), vetterID, vetterType)
      == Some(Note(vetterType, DisabledSummary(vetterID), Info))
  {
    ContainsInside(pre, InitializerDisabled, post);
  }
}
