/**
 * discover: builds a descriptor for every service name, then drops the
 * services whose name holds one of the exclude patterns. The objects
 * ServiceRouter instantiates, and what reflection reports about them, are
 * inputs: a service object is its class's doc comment and its public
 * methods, each with its doc comment and its declared parameters.
 */
module Discovery {
  import opened Optional
  import opened PhpStrings
  import opened DocComment
  import opened ServiceLocator

  // ---------------------------------------------------------------------
  // Configuration
  // ---------------------------------------------------------------------

  /** The static fields of AmfDiscoveryService that discover reads. */
  datatype Config = Config(
    excludePaths: seq<string>,
    serviceFolderPaths: seq<string>,
    serviceNames2ClassFindInfo: seq<Registration>,
    restrictAccess: bool)

  /** The pattern excluded by default: the discovery service itself. */
  const DiscoveryServiceName: string := "AmfDiscoveryService"

  /** The fields before any plugin sets them; an unset `$restrictAccess` is falsy. */
  const DefaultConfig: Config := Config([DiscoveryServiceName], [], [], false)

  const AdminRole: string := "amfphp_admin"

  /** The roles `_getMethodRoles` grants for a method. */
  function GetMethodRoles(config: Config, methodName: string): seq<string> {
    if config.restrictAccess then [AdminRole] else []
  }

  // ---------------------------------------------------------------------
  // Reflection records and descriptors
  // ---------------------------------------------------------------------

  /** A declared parameter, with the class of its type declaration if it has one. */
  datatype ReflectedParameter = ReflectedParameter(name: string, classType: Option<string>)

  /** A public method as reflection reports it; a missing doc comment is None. */
  datatype ReflectedMethod = ReflectedMethod(name: string, docComment: Option<string>, parameters: seq<ReflectedParameter>)

  /** An instantiated service: its class's doc comment and its public methods in order. */
  datatype ServiceObject = ServiceObject(docComment: Option<string>, publicMethods: seq<ReflectedMethod>)

  datatype ParameterDescriptor = ParameterDescriptor(name: string, typeName: string)

  datatype MethodDescriptor = MethodDescriptor(
    name: string,
    parameters: seq<ParameterDescriptor>,
    comment: Option<string>,
    returnType: string)

  datatype ServiceDescriptor = ServiceDescriptor(name: string, methods: map<string, MethodDescriptor>, comment: Option<string>)

  /**
   * ServiceRouter::getServiceObjectStatically: the object for a service
   * name, given the folder paths and registrations, or None where it fails.
   */
  type Instantiator = (string, seq<string>, seq<Registration>) -> Option<ServiceObject>

  /** What discover returns, or the service whose instantiation aborted it. */
  datatype Outcome = Discovered(catalog: map<string, ServiceDescriptor>) | InstantiationFailed(serviceName: string)

  // ---------------------------------------------------------------------
  // The build pass, as functions
  // ---------------------------------------------------------------------

  /** `substr($methodName, 0, 1) == '_'`: a reserved method, never listed. */
  predicate IsReserved(methodName: string) {
    |methodName| > 0 && methodName[0] == '_'
  }

  /** A parameter's type: its class, else the comment's type for its name, else ''. */
  function ParameterType(p: ReflectedParameter, parsed: ParsedComment): string {
    if p.classType.Some? then p.classType.value
    else if p.name in parsed.params then parsed.params[p.name]
    else ""
  }

  /** The parameter descriptors, in declaration order. */
  function DescribeParameters(ps: seq<ReflectedParameter>, parsed: ParsedComment): seq<ParameterDescriptor>
    decreases |ps|
  {
    if ps == [] then []
    else DescribeParameters(ps[..|ps| - 1], parsed) + [ParameterDescriptor(ps[|ps| - 1].name, ParameterType(ps[|ps| - 1], parsed))]
  }

  /** The descriptor of one method. */
  function DescribeMethod(m: ReflectedMethod): MethodDescriptor {
    var parsed := ParseComment(m.docComment);
    MethodDescriptor(m.name, DescribeParameters(m.parameters, parsed), m.docComment, parsed.returnType)
  }

  /** The `$methods` map after the loop has seen these methods. */
  function MethodsOf(ms: seq<ReflectedMethod>): map<string, MethodDescriptor>
    decreases |ms|
  {
    if ms == [] then map[]
    else
      var before := MethodsOf(ms[..|ms| - 1]);
      var m := ms[|ms| - 1];
      if IsReserved(m.name) then before else before[m.name := DescribeMethod(m)]
  }

  /** The descriptor of one service. */
  function DescribeService(serviceName: string, obj: ServiceObject): ServiceDescriptor {
    ServiceDescriptor(serviceName, MethodsOf(obj.publicMethods), obj.docComment)
  }

  /** The `$ret` map after the build loop has seen these names, or the first failure. */
  function BuildCatalog(names: seq<string>, config: Config, instantiate: Instantiator): Outcome
    decreases |names|
  {
    if names == [] then Discovered(map[])
    else
      match BuildCatalog(names[..|names| - 1], config, instantiate)
      case InstantiationFailed(n) => InstantiationFailed(n)
      case Discovered(c) =>
        var name := names[|names| - 1];
        match instantiate(name, config.serviceFolderPaths, config.serviceNames2ClassFindInfo)
        case None => InstantiationFailed(name)
        case Some(obj) => Discovered(c[name := DescribeService(name, obj)])
  }

  // ---------------------------------------------------------------------
  // The filter pass, as functions
  // ---------------------------------------------------------------------

  /** Some exclude pattern occurs in the service name. */
  predicate IsExcluded(serviceName: string, excludePaths: seq<string>) {
    exists i :: 0 <= i < |excludePaths| && Contains(serviceName, excludePaths[i])
  }

  /** The catalog without its excluded services. */
  function Filtered(catalog: map<string, ServiceDescriptor>, excludePaths: seq<string>): map<string, ServiceDescriptor> {
    map k | k in catalog && !IsExcluded(k, excludePaths) :: catalog[k]
  }

  /** What discover returns for a configuration, a filesystem and an instantiator. */
  function DiscoverResult(fs: FileSystem, config: Config, instantiate: Instantiator): Outcome {
    var names := ServiceNames(fs, config.serviceFolderPaths, config.serviceNames2ClassFindInfo);
    match BuildCatalog(names, config, instantiate)
    case InstantiationFailed(n) => InstantiationFailed(n)
    case Discovered(c) => Discovered(Filtered(c, config.excludePaths))
  }

  // ---------------------------------------------------------------------
  // discover, as the source performs it
  // ---------------------------------------------------------------------

  /** The parameter loop: one descriptor per declared parameter, in order. */
  method DescribeMethodParameters(paramRs: seq<ReflectedParameter>, parsedMethodComment: ParsedComment)
    returns (parameters: seq<ParameterDescriptor>)
    ensures parameters == DescribeParameters(paramRs, parsedMethodComment)
  {
    parameters := [];
    var i := 0;
    while i < |paramRs|
      invariant 0 <= i <= |paramRs|
      invariant parameters == DescribeParameters(paramRs[..i], parsedMethodComment)
    {
      var paramR := paramRs[i];
      assert paramRs[..i + 1][..i] == paramRs[..i];
      var typeName := "";
      if paramR.classType.Some? {
        typeName := paramR.classType.value;
      } else if paramR.name in parsedMethodComment.params {
        typeName := parsedMethodComment.params[paramR.name];
      }
      parameters := parameters + [ParameterDescriptor(paramR.name, typeName)];
      i := i + 1;
    }
    assert paramRs[..i] == paramRs;
  }

  /** The method loop for one service object, skipping reserved methods. */
  method DescribeServiceObject(serviceName: string, serviceObject: ServiceObject) returns (desc: ServiceDescriptor)
    ensures desc == DescribeService(serviceName, serviceObject)
  {
    var methodRs := serviceObject.publicMethods;
    var methods: map<string, MethodDescriptor> := map[];
    var i := 0;
    while i < |methodRs|
      invariant 0 <= i <= |methodRs|
      invariant methods == MethodsOf(methodRs[..i])
    {
      var methodR := methodRs[i];
      assert methodRs[..i + 1][..i] == methodRs[..i];
      i := i + 1;
      if IsReserved(methodR.name) {
        continue;
      }
      var parsedMethodComment := ParseMethodComment(methodR.docComment);
      var parameters := DescribeMethodParameters(methodR.parameters, parsedMethodComment);
      methods := methods[methodR.name := MethodDescriptor(methodR.name, parameters, methodR.docComment, parsedMethodComment.returnType)];
    }
    assert methodRs[..i] == methodRs;
    desc := ServiceDescriptor(serviceName, methods, serviceObject.docComment);
  }

  /** The inner loop of the filter pass: the first pattern found ends the search. */
  method MatchesExcludePath(serviceName: string, excludePaths: seq<string>) returns (excluded: bool)
    ensures excluded <==> IsExcluded(serviceName, excludePaths)
  {
    excluded := false;
    var i := 0;
    while i < |excludePaths|
      invariant 0 <= i <= |excludePaths|
      invariant !excluded
      invariant forall j :: 0 <= j < i ==> !Contains(serviceName, excludePaths[j])
    {
      if StrPos(serviceName, excludePaths[i]).Some? {
        excluded := true;
        break;
      }
      i := i + 1;
    }
  }

  /** The filter pass: every service whose name holds an exclude pattern is unset. */
  method FilterCatalog(catalog: map<string, ServiceDescriptor>, excludePaths: seq<string>)
    returns (ret: map<string, ServiceDescriptor>)
    ensures forall k :: k in ret <==> k in catalog && !IsExcluded(k, excludePaths)
    ensures forall k :: k in ret ==> ret[k] == catalog[k]
  {
    ret := catalog;
    var pending := catalog.Keys;
    while pending != {}
      invariant pending <= catalog.Keys
      invariant forall k :: k in ret <==> k in catalog && (k in pending || !IsExcluded(k, excludePaths))
      invariant forall k :: k in ret ==> ret[k] == catalog[k]
      decreases |pending|
    {
      var serviceName :| serviceName in pending;
      var excluded := MatchesExcludePath(serviceName, excludePaths);
      if excluded {
        ret := map k | k in ret && k != serviceName :: ret[k];
      }
      pending := pending - {serviceName};
    }
  }

  /** discover: the build pass over every service name, then the filter pass. */
  method Discover(fs: FileSystem, config: Config, instantiate: Instantiator) returns (outcome: Outcome)
    ensures outcome == DiscoverResult(fs, config, instantiate)
  {
    var serviceNames := GetServiceNames(fs, config.serviceFolderPaths, config.serviceNames2ClassFindInfo);
    var ret: map<string, ServiceDescriptor> := map[];
    var i := 0;
    while i < |serviceNames|
      invariant 0 <= i <= |serviceNames|
      invariant BuildCatalog(serviceNames[..i], config, instantiate) == Discovered(ret)
    {
      var serviceName := serviceNames[i];
      var serviceObject := instantiate(serviceName, config.serviceFolderPaths, config.serviceNames2ClassFindInfo);
      BuildStep(serviceNames, i, config, instantiate, ret);
      if serviceObject.None? {
        BuildStopsAtFailure(serviceNames, i + 1, config, instantiate);
        return InstantiationFailed(serviceName);
      }
      var desc := DescribeServiceObject(serviceName, serviceObject.value);
      ret := ret[serviceName := desc];
      i := i + 1;
    }
    assert serviceNames[..i] == serviceNames;
    var kept := FilterCatalog(ret, config.excludePaths);
    FilteredByKeys(ret, config.excludePaths, kept);
    return Discovered(kept);
  }

  /** One more name extends a successful build pass by its entry, or stops it at that name. */
  lemma BuildStep(names: seq<string>, i: nat, config: Config, instantiate: Instantiator, ret: map<string, ServiceDescriptor>)
    requires i < |names|
    requires BuildCatalog(names[..i], config, instantiate) == Discovered(ret)
    ensures Instantiate(instantiate, config, names[i]).None? ==>
      BuildCatalog(names[..i + 1], config, instantiate) == InstantiationFailed(names[i])
    ensures Instantiate(instantiate, config, names[i]).Some? ==>
      BuildCatalog(names[..i + 1], config, instantiate)
        == Discovered(ret[names[i] := DescribeService(names[i], Instantiate(instantiate, config, names[i]).value)])
  {
    assert names[..i + 1][..i] == names[..i];
  }

  /** A map holding exactly the kept keys, with their values unchanged, is the filtered catalog. */
  lemma FilteredByKeys(catalog: map<string, ServiceDescriptor>, excludePaths: seq<string>, kept: map<string, ServiceDescriptor>)
    requires forall k :: k in kept <==> k in catalog && !IsExcluded(k, excludePaths)
    requires forall k :: k in kept ==> kept[k] == catalog[k]
    ensures kept == Filtered(catalog, excludePaths)
  {
  }

  // ---------------------------------------------------------------------
  // Properties of the build pass
  // ---------------------------------------------------------------------

  /** Once a prefix of the names fails, so does every longer prefix, with the same name. */
  lemma {:induction false} BuildStopsAtFailure(names: seq<string>, n: nat, config: Config, instantiate: Instantiator)
    requires n <= |names|
    requires BuildCatalog(names[..n], config, instantiate).InstantiationFailed?
    ensures BuildCatalog(names, config, instantiate) == BuildCatalog(names[..n], config, instantiate)
    decreases |names| - n
  {
    if n < |names| {
      assert names[..n + 1][..n] == names[..n];
      BuildStopsAtFailure(names, n + 1, config, instantiate);
    } else {
      assert names[..n] == names;
    }
  }

  /** The object ServiceRouter gives for a name under a configuration. */
  function Instantiate(instantiate: Instantiator, config: Config, name: string): Option<ServiceObject> {
    instantiate(name, config.serviceFolderPaths, config.serviceNames2ClassFindInfo)
  }

  /**
   * The build pass fails exactly when some name cannot be instantiated, and
   * it names the first such name; otherwise the catalog has one entry per
   * distinct name, describing the object instantiated for it.
   */
  lemma {:induction false} BuildCatalogSpec(names: seq<string>, config: Config, instantiate: Instantiator)
    ensures BuildCatalog(names, config, instantiate).InstantiationFailed? <==>
      exists i :: 0 <= i < |names| && Instantiate(instantiate, config, names[i]).None?
    ensures BuildCatalog(names, config, instantiate).InstantiationFailed? ==>
      exists i :: 0 <= i < |names| && names[i] == BuildCatalog(names, config, instantiate).serviceName
        && Instantiate(instantiate, config, names[i]).None?
        && forall j :: 0 <= j < i ==> Instantiate(instantiate, config, names[j]).Some?
    ensures BuildCatalog(names, config, instantiate).Discovered? ==>
      var c := BuildCatalog(names, config, instantiate).catalog;
      (forall k :: k in c <==> k in names)
      && (forall k :: k in c ==>
            (Instantiate(instantiate, config, k).Some?
             && c[k] == DescribeService(k, Instantiate(instantiate, config, k).value)))
    decreases |names|
  {
    if names != [] {
      var init := names[..|names| - 1];
      var last := names[|names| - 1];
      BuildCatalogSpec(init, config, instantiate);
      assert names == init + [last];
      assert forall i :: 0 <= i < |init| ==> init[i] == names[i];
      assert forall k :: k in names <==> k in init || k == last;
    }
  }

  /**
   * When one name occurs twice, the catalog keeps the descriptor built for
   * its last occurrence: each later build overwrites the earlier entry.
   */
  lemma LastBuildWins(names: seq<string>, config: Config, instantiate: Instantiator, name: string, obj: ServiceObject)
    requires BuildCatalog(names, config, instantiate).Discovered?
    requires Instantiate(instantiate, config, name) == Some(obj)
    ensures BuildCatalog(names + [name], config, instantiate)
      == Discovered(BuildCatalog(names, config, instantiate).catalog[name := DescribeService(name, obj)])
  {
    assert (names + [name])[..|names|] == names;
  }

  /** No reserved method appears, and every listed method is described under its own name. */
  lemma {:induction false} MethodsOfSpec(ms: seq<ReflectedMethod>)
    ensures forall k :: k in MethodsOf(ms) <==> !IsReserved(k) && exists i :: 0 <= i < |ms| && ms[i].name == k
    ensures forall k :: k in MethodsOf(ms) ==> MethodsOf(ms)[k].name == k
    decreases |ms|
  {
    if ms != [] {
      var init := ms[..|ms| - 1];
      MethodsOfSpec(init);
      assert forall i :: 0 <= i < |init| ==> init[i] == ms[i];
    }
  }

  /** A method listed under a name is the last public method with that name. */
  lemma {:induction false} MethodsOfLastWins(ms: seq<ReflectedMethod>, j: nat)
    requires j < |ms| && !IsReserved(ms[j].name)
    requires forall i :: j < i < |ms| ==> ms[i].name != ms[j].name
    ensures ms[j].name in MethodsOf(ms) && MethodsOf(ms)[ms[j].name] == DescribeMethod(ms[j])
    decreases |ms|
  {
    if j < |ms| - 1 {
      var init := ms[..|ms| - 1];
      assert init[j] == ms[j];
      MethodsOfLastWins(init, j);
    } else {
      assert ms[j] == ms[|ms| - 1];
    }
  }

  /** `_getMethodRoles` is public but reserved, so it is never listed. */
  lemma RoleHookNeverListed(obj: ServiceObject, serviceName: string)
    ensures "_getMethodRoles" !in DescribeService(serviceName, obj).methods
  {
    MethodsOfSpec(obj.publicMethods);
    assert IsReserved("_getMethodRoles");
  }

  /**
   * The parameters keep the declared length and order, and each type is
   * the declared class, else the comment's type for exactly that name, else ''.
   */
  lemma {:induction false} DescribeParametersSpec(ps: seq<ReflectedParameter>, parsed: ParsedComment)
    ensures |DescribeParameters(ps, parsed)| == |ps|
    ensures forall i :: 0 <= i < |ps| ==> DescribeParameters(ps, parsed)[i].name == ps[i].name
    ensures forall i :: 0 <= i < |ps| && ps[i].classType.Some? ==>
      DescribeParameters(ps, parsed)[i].typeName == ps[i].classType.value
    ensures forall i :: 0 <= i < |ps| && ps[i].classType.None? && ps[i].name in parsed.params ==>
      DescribeParameters(ps, parsed)[i].typeName == parsed.params[ps[i].name]
    ensures forall i :: 0 <= i < |ps| && ps[i].classType.None? && ps[i].name !in parsed.params ==>
      DescribeParameters(ps, parsed)[i].typeName == ""
    decreases |ps|
  {
    if ps != [] {
      var init := ps[..|ps| - 1];
      DescribeParametersSpec(init, parsed);
      assert forall i :: 0 <= i < |init| ==> init[i] == ps[i];
    }
  }

  // ---------------------------------------------------------------------
  // Properties of the filter pass and of discover
  // ---------------------------------------------------------------------

  /** A service remains exactly when no pattern occurs in its name, and it remains unchanged. */
  lemma FilteredSpec(catalog: map<string, ServiceDescriptor>, excludePaths: seq<string>, k: string)
    ensures k in Filtered(catalog, excludePaths) <==>
      k in catalog && forall i :: 0 <= i < |excludePaths| ==> !Contains(k, excludePaths[i])
    ensures k in Filtered(catalog, excludePaths) ==> Filtered(catalog, excludePaths)[k] == catalog[k]
  {
  }

  /** With the default patterns, the discovery service never lists itself, under any folder prefix. */
  lemma DefaultExcludesItself(prefix: string, suffix: string)
    ensures IsExcluded(prefix + DiscoveryServiceName + suffix, DefaultConfig.excludePaths)
  {
    ContainsInside(prefix, DiscoveryServiceName, suffix);
    assert DefaultConfig.excludePaths[0] == DiscoveryServiceName;
  }

  /** An exclude pattern is a substring test: "Admin" also drops "AdminService" and "sub/MyAdmin". */
  lemma PatternIsSubstring(pattern: string, prefix: string, suffix: string, excludePaths: seq<string>)
    requires pattern in excludePaths
    ensures IsExcluded(prefix + pattern + suffix, excludePaths)
  {
    ContainsInside(prefix, pattern, suffix);
  }

  /**
   * Filtering happens only after every service is built: the patterns do
   * not change which objects are instantiated, so discover with patterns
   * is discover without them, filtered.
   */
  lemma FilterComesLast(fs: FileSystem, config: Config, instantiate: Instantiator)
    ensures var unfiltered := DiscoverResult(fs, config.(excludePaths := []), instantiate);
      DiscoverResult(fs, config, instantiate) ==
        if unfiltered.Discovered? then Discovered(Filtered(unfiltered.catalog, config.excludePaths)) else unfiltered
  {
    var names := ServiceNames(fs, config.serviceFolderPaths, config.serviceNames2ClassFindInfo);
    SameBuild(names, config, config.(excludePaths := []), instantiate);
    var built := BuildCatalog(names, config, instantiate);
    if built.Discovered? {
      assert Filtered(built.catalog, []) == built.catalog;
    }
  }

  /** The build pass reads only the folder paths and registrations. */
  lemma {:induction false} SameBuild(names: seq<string>, a: Config, b: Config, instantiate: Instantiator)
    requires a.serviceFolderPaths == b.serviceFolderPaths && a.serviceNames2ClassFindInfo == b.serviceNames2ClassFindInfo
    ensures BuildCatalog(names, a, instantiate) == BuildCatalog(names, b, instantiate)
    decreases |names|
  {
    if names != [] {
      SameBuild(names[..|names| - 1], a, b, instantiate);
    }
  }

  /** A service that fails to instantiate aborts discover even when its name is excluded. */
  lemma ExcludedFailureStillAborts(fs: FileSystem, config: Config, instantiate: Instantiator, i: nat)
    requires var names := ServiceNames(fs, config.serviceFolderPaths, config.serviceNames2ClassFindInfo);
      i < |names| && Instantiate(instantiate, config, names[i]).None?
    ensures DiscoverResult(fs, config, instantiate).InstantiationFailed?
  {
    BuildCatalogSpec(ServiceNames(fs, config.serviceFolderPaths, config.serviceNames2ClassFindInfo), config, instantiate);
  }

  /** The discovered services are the found names that no pattern excludes, each described from its object. */
  lemma DiscoverSpec(fs: FileSystem, config: Config, instantiate: Instantiator, k: string)
    requires DiscoverResult(fs, config, instantiate).Discovered?
    ensures var names := ServiceNames(fs, config.serviceFolderPaths, config.serviceNames2ClassFindInfo);
      var c := DiscoverResult(fs, config, instantiate).catalog;
      (k in c <==> k in names && !IsExcluded(k, config.excludePaths))
      && (k in c ==>
            (Instantiate(instantiate, config, k).Some?
             && c[k] == DescribeService(k, Instantiate(instantiate, config, k).value)))
  {
    BuildCatalogSpec(ServiceNames(fs, config.serviceFolderPaths, config.serviceNames2ClassFindInfo), config, instantiate);
  }

  // ---------------------------------------------------------------------
  // Properties of _getMethodRoles
  // ---------------------------------------------------------------------

  /** The roles depend on the flag alone, never on the method. */
  lemma RolesIgnoreMethod(config: Config, m1: string, m2: string)
    ensures GetMethodRoles(config, m1) == GetMethodRoles(config, m2)
  {
  }

  /**
   * The admin role is required exactly when access is restricted, and no
   * role otherwise; by default none is.
   */
  lemma RolesIffRestricted(config: Config, methodName: string)
    ensures GetMethodRoles(config, methodName) == [AdminRole] <==> config.restrictAccess
    ensures GetMethodRoles(config, methodName) == [] <==> !config.restrictAccess
    ensures GetMethodRoles(DefaultConfig, methodName) == []
  {
  }
}
