/**
 * The server's mutable state and its lifecycle: the host map loaded once, the
 * registry of listeners by port, the active archive, the numbered-selection
 * mode, loading an archive, the stop barrier, and the console handler.
 * Files, listening sockets and timers are not modelled: the archive directory
 * is a parameter and close completions arrive as `OnClosed` events.
 */
module Runtime {
  import opened Wrappers
  import opened JsText
  import opened JsonValue
  import opened HostMap
  import opened KeyOrder
  import opened HarConvert
  import opened ConsoleInput

  /** A route as registered on a listener's application: method, "/" + path, and the canned response. */
  datatype Route = Route(verb: string, path: string, status: int, body: Json)

  /** The archive directory: its listing (None: no directory) and the parsed archive of every existing name. */
  datatype HarsDir = HarsDir(listing: Option<seq<string>>, archives: map<string, Archive>)

  /** What runs once every listener has closed: load an archive (`add`) or clear the session (`rm`). */
  datatype Continuation = LoadArchive(name: string) | ClearSession

  function RouteOf(e: Endpoint): Route
  {
    Route(e.verb, "/" + e.path, e.status, e.body)
  }

  /** The routes of a group's application, registered in endpoint order. */
  function RoutesOf(endpoints: seq<Endpoint>): (routes: seq<Route>)
    ensures |routes| == |endpoints|
    ensures forall i :: 0 <= i < |routes| ==> routes[i].path == "/" + endpoints[i].path
  {
    seq(|endpoints|, i requires 0 <= i < |endpoints| => RouteOf(endpoints[i]))
  }

  function PortsOf(groups: seq<PortGroup>): (ports: seq<int>)
    ensures |ports| == |groups| && forall i :: 0 <= i < |groups| ==> ports[i] == groups[i].port
  {
    seq(|groups|, i requires 0 <= i < |groups| => groups[i].port)
  }

  /** The route registrations of one group's application (`api.endpoints.forEach`), in endpoint order. */
  method BuildRoutes(endpoints: seq<Endpoint>) returns (routes: seq<Route>)
    ensures routes == RoutesOf(endpoints)
  {
    routes := [];
    var j := 0;
    while j < |endpoints|
      invariant 0 <= j <= |endpoints|
      invariant routes == RoutesOf(endpoints[..j])
    {
      var endpoint := endpoints[j];
      routes := routes + [Route(endpoint.verb, "/" + endpoint.path, endpoint.status, endpoint.body)];
      j := j + 1;
    }
    assert endpoints[..j] == endpoints;
  }

  /** The keys of a `Map` after `set(p, ...)` for each `p` of `ports` in turn: new keys go last. */
  function AddKeys(keys: seq<int>, ports: seq<int>): seq<int>
  {
    if ports == [] then keys
    else
      var k := AddKeys(keys, ports[..|ports| - 1]);
      if ports[|ports| - 1] in k then k else k + [ports[|ports| - 1]]
  }

  /** The listeners' applications after registering each group in turn. */
  function Register(apps: map<int, seq<Route>>, groups: seq<PortGroup>): map<int, seq<Route>>
  {
    if groups == [] then apps
    else
      var g := groups[|groups| - 1];
      Register(apps, groups[..|groups| - 1])[g.port := RoutesOf(g.endpoints)]
  }

  /** The groups `loadHar(name)` starts, or None when it rejects the archive (missing, or no endpoints). */
  function LoadOutcome(name: string, dir: HarsDir, hostMap: map<string, HostEntry>, parse: Parser): Option<seq<PortGroup>>
  {
    if name !in dir.archives then None
    else
      var apis := Convert(Some(dir.archives[name]), hostMap, parse);
      if apis == [] then None else Some(apis)
  }

  /**
   * Registering keeps every earlier key in place, adds each port not yet present,
   * and adds nothing else; duplicates never arise.
   */
  lemma {:induction false} AddKeysFacts(keys: seq<int>, ports: seq<int>)
    requires NoDup(keys)
    ensures NoDup(AddKeys(keys, ports))
    ensures |keys| <= |AddKeys(keys, ports)| && AddKeys(keys, ports)[..|keys|] == keys
    ensures forall p :: p in AddKeys(keys, ports) <==> p in keys || p in ports
  {
    if ports != [] {
      var init := ports[..|ports| - 1];
      AddKeysFacts(keys, init);
      assert forall p :: p in ports <==> p in init || p == ports[|ports| - 1];
    }
  }

  /** Registering distinct ports into an empty registry lists them in group order. */
  lemma {:induction false} AddKeysFresh(ports: seq<int>)
    requires NoDup(ports)
    ensures AddKeys([], ports) == ports
  {
    if ports != [] {
      var init := ports[..|ports| - 1];
      AddKeysFresh(init);
      assert ports[|ports| - 1] !in init;
      assert init + [ports[|ports| - 1]] == ports;
    }
  }

  /** Every registered group's port holds that group's routes; other ports keep what they had. */
  lemma {:induction false} RegisterFacts(apps: map<int, seq<Route>>, groups: seq<PortGroup>)
    requires NoDup(PortsOf(groups))
    ensures forall i :: 0 <= i < |groups| ==>
      (groups[i].port in Register(apps, groups) && Register(apps, groups)[groups[i].port] == RoutesOf(groups[i].endpoints))
    ensures forall p :: p in Register(apps, groups) <==> p in apps || p in PortsOf(groups)
    ensures forall p :: p in apps && p !in PortsOf(groups) ==> Register(apps, groups)[p] == apps[p]
  {
    if groups != [] {
      var init := groups[..|groups| - 1];
      assert PortsOf(init) == PortsOf(groups)[..|groups| - 1];
      RegisterFacts(apps, init);
      assert forall p :: p in PortsOf(groups) <==> p in PortsOf(init) || p == groups[|groups| - 1].port;
    }
  }

  /** The module-level state of the server. */
  class Runtime {
    var hostMap: map<string, HostEntry>
    var waitTime: int
    /** The keys of `servers`, in insertion order. */
    var servers: seq<int>
    /** The routes of the application behind each registered listener. */
    var apps: map<int, seq<Route>>
    var activeName: Option<string>
    var activeApis: seq<PortGroup>
    var expectingSelection: bool
    var harFileList: seq<string>

    ghost predicate Valid()
      reads this
    {
      RegistryValid() && SessionValid() && IdleValid() && SelectionValid()
    }

    /** Each listener is registered once, with an application. */
    ghost predicate RegistryValid()
      reads this`servers, this`apps
    {
      NoDup(servers) && forall p :: p in apps <==> p in servers
    }

    /** The active archive has a name exactly when it has groups; no group is empty and no port repeats. */
    ghost predicate SessionValid()
      reads this`activeName, this`activeApis
    {
      && (activeName.None? <==> activeApis == [])
      && (forall k :: 0 <= k < |activeApis| ==> activeApis[k].endpoints != [])
      && NoDup(PortsOf(activeApis))
    }

    /** With no active archive no listener is registered: the session is cleared only once every listener has closed. */
    ghost predicate IdleValid()
      reads this`activeName, this`servers
    {
      activeName.None? ==> servers == []
    }

    /** The selection mode is armed exactly when there is a list to choose from. */
    ghost predicate SelectionValid()
      reads this`expectingSelection, this`harFileList
    {
      expectingSelection <==> harFileList != []
    }

    /** `activeHar` was left as it was. */
    ghost predicate SessionIs(s0: seq<int>, a0: map<int, seq<Route>>, n0: Option<string>, g0: seq<PortGroup>)
      reads this`servers, this`apps, this`activeName, this`activeApis, this`hostMap
    {
      servers == s0 && apps == a0 && activeName == n0 && activeApis == g0
    }

    /** The state `loadHar(name)` leaves, started from servers `s0`, apps `a0` and session `n0`, `g0`. */
    ghost predicate AfterLoad(name: string, dir: HarsDir, parse: Parser,
                              s0: seq<int>, a0: map<int, seq<Route>>, n0: Option<string>, g0: seq<PortGroup>)
      reads this`servers, this`apps, this`activeName, this`activeApis, this`hostMap
    {
      match LoadOutcome(name, dir, hostMap, parse)
      case None => SessionIs(s0, a0, n0, g0)
      case Some(apis) =>
        && activeName == Some(name) && activeApis == apis
        && servers == AddKeys(s0, PortsOf(apis)) && apps == Register(a0, apis)
    }

    /** The state the stop callback leaves. */
    ghost predicate AfterFinish(callback: Continuation, dir: HarsDir, parse: Parser,
                                s0: seq<int>, a0: map<int, seq<Route>>, n0: Option<string>, g0: seq<PortGroup>)
      reads this`servers, this`apps, this`activeName, this`activeApis, this`hostMap
    {
      match callback
      case ClearSession => SessionIs(s0, a0, None, [])
      case LoadArchive(name) => AfterLoad(name, dir, parse, s0, a0, n0, g0)
    }

    /**
     * What a console line leaves, started from servers `s0`, apps `a0` and session
     * `n0`, `g0`, given the callback it handed to `stopServers` (None: it did not
     * stop): the callback has already run when there was no listener to wait
     * for; otherwise the session is untouched until the barrier completes.
     */
    ghost predicate AfterLine(callback: Option<Continuation>, dir: HarsDir, parse: Parser,
                              s0: seq<int>, a0: map<int, seq<Route>>, n0: Option<string>, g0: seq<PortGroup>)
      reads this`servers, this`apps, this`activeName, this`activeApis, this`hostMap
    {
      if callback.Some? && s0 == [] then AfterFinish(callback.value, dir, parse, s0, a0, n0, g0)
      else SessionIs(s0, a0, n0, g0)
    }

    /** Process start: empty state, then the one configuration load. */
    constructor (config: Option<ConfigDoc>)
      ensures Valid()
      ensures servers == [] && apps == map[] && activeName == None && activeApis == []
      ensures !expectingSelection && harFileList == []
      ensures config.None? ==> hostMap == map[] && waitTime == 0
      ensures config.Some? ==> hostMap == BuildHostMap(HostsOf(config.value)) && waitTime == WaitTimeOf(config.value)
    {
      hostMap := map[];
      waitTime := 0;
      servers := [];
      apps := map[];
      activeName := None;
      activeApis := [];
      expectingSelection := false;
      harFileList := [];
      new;
      LoadConfigOnce(config);
    }

    /**
     * `loadConfigOnce`: does nothing once the host map has an entry or when there
     * is no configuration; otherwise sets the wait time and inserts every rule.
     */
    method LoadConfigOnce(config: Option<ConfigDoc>)
      modifies this`hostMap, this`waitTime
      ensures |old(hostMap)| > 0 || config.None? ==> hostMap == old(hostMap) && waitTime == old(waitTime)
      ensures |old(hostMap)| == 0 && config.Some? ==>
        hostMap == BuildHostMap(HostsOf(config.value)) && waitTime == WaitTimeOf(config.value)
    {
      if |hostMap| > 0 {
        return;
      }
      if config.None? {
        return;
      }
      var doc := config.value;
      waitTime := WaitTimeOf(doc);
      var hosts := HostsOf(doc);
      assert hostMap == map[];
      var i := 0;
      while i < |hosts|
        invariant 0 <= i <= |hosts|
        invariant waitTime == WaitTimeOf(doc)
        invariant hostMap == BuildHostMap(hosts[..i])
      {
        var entry := hosts[i];
        assert hosts[..i + 1][..i] == hosts[..i];
        hostMap := hostMap[entry.url := HostEntry(entry.port, entry.removePrefix.GetOr(""))];
        i := i + 1;
      }
      assert hosts[..i] == hosts;
    }

    /** `createServer`'s bookkeeping: `servers.set(port, server)`, the server serving `routes`. */
    method CreateServer(port: int, routes: seq<Route>)
      requires Valid() && activeName.Some?
      modifies this`servers, this`apps
      ensures Valid()
      ensures servers == AddKeys(old(servers), [port])
      ensures apps == old(apps)[port := routes]
    {
      assert [port][..0] == [];
      if port !in servers {
        servers := servers + [port];
      }
      apps := apps[port := routes];
    }

    /**
     * `loadHar`: a missing archive, or one without endpoints, leaves everything as
     * it was; otherwise the archive becomes the active one and every group's port
     * is registered, in group order, with the group's routes in endpoint order.
     */
    method LoadHar(name: string, dir: HarsDir, parse: Parser)
      requires Valid()
      modifies this`servers, this`apps, this`activeName, this`activeApis
      ensures Valid()
      ensures AfterLoad(name, dir, parse, old(servers), old(apps), old(activeName), old(activeApis))
    {
      if name !in dir.archives {
        assert LoadOutcome(name, dir, hostMap, parse) == None;
        return;
      }
      var apis := ConvertHarToApis(Some(dir.archives[name]), hostMap, parse);
      if |apis| == 0 {
        assert LoadOutcome(name, dir, hostMap, parse) == None;
        return;
      }
      assert LoadOutcome(name, dir, hostMap, parse) == Some(apis);
      GroupsPartition(EntriesOf(dir.archives[name]), hostMap, parse);
      assert NoDup(PortsOf(apis));
      activeName := Some(name);
      activeApis := apis;
      StartGroups(apis);
      assert LoadOutcome(name, dir, hostMap, parse) == Some(apis);
    }

    /** The `apis.forEach` of `loadHar`: one application per group, its listener registered on the group's port. */
    method StartGroups(apis: seq<PortGroup>)
      requires Valid() && activeName.Some?
      modifies this`servers, this`apps
      ensures Valid()
      ensures servers == AddKeys(old(servers), PortsOf(apis))
      ensures apps == Register(old(apps), apis)
    {
      var k := 0;
      while k < |apis|
        invariant 0 <= k <= |apis|
        invariant servers == AddKeys(old(servers), PortsOf(apis[..k]))
        invariant apps == Register(old(apps), apis[..k])
        invariant Valid()
      {
        var api := apis[k];
        var routes := BuildRoutes(api.endpoints);
        CreateServer(api.port, routes);
        assert apis[..k + 1][..k] == apis[..k];
        assert PortsOf(apis[..k + 1]) == PortsOf(apis[..k]) + [api.port];
        k := k + 1;
      }
      assert apis[..k] == apis;
    }

    /** The stop callback: `loadHar(name)`, or the `rm` callback resetting `activeHar` to `{ null, [] }`. */
    method Finish(callback: Continuation, dir: HarsDir, parse: Parser)
      requires Valid()
      requires callback.ClearSession? ==> servers == []
      modifies this`servers, this`apps, this`activeName, this`activeApis
      ensures Valid()
      ensures AfterFinish(callback, dir, parse, old(servers), old(apps), old(activeName), old(activeApis))
    {
      match callback
      case ClearSession =>
        activeName := None;
        activeApis := [];
      case LoadArchive(name) =>
        LoadHar(name, dir, parse);
    }

    /** `servers.clear()` */
    method ClearServers()
      requires Valid()
      modifies this`servers, this`apps
      ensures Valid()
      ensures servers == [] && apps == map[]
    {
      servers := [];
      apps := map[];
    }

    /**
     * `stopServers(callback)`: snapshots the registered ports and asks each listener to
     * close. With no listeners the callback runs at once; otherwise nothing changes
     * until the barrier has seen every close.
     */
    method StopServers(callback: Continuation, dir: HarsDir, parse: Parser) returns (barrier: StopBarrier)
      requires Valid()
      modifies this`servers, this`apps, this`activeName, this`activeApis
      ensures Valid() && fresh(barrier) && barrier.callback == callback
      ensures barrier.Started(this, old(servers))
      ensures AfterLine(Some(callback), dir, parse, old(servers), old(apps), old(activeName), old(activeApis))
    {
      var ports := servers;
      barrier := new StopBarrier(this, ports, callback);
      if |ports| == 0 {
        Finish(callback, dir, parse);
      }
    }

    /** `listHarFilesNumbered`: arms the numbered selection over the archive names, unless there are none. */
    method ListHarFilesNumbered(dir: HarsDir)
      modifies this`expectingSelection, this`harFileList
      ensures var files := HarFiles(dir.listing);
        if files == [] then !expectingSelection && harFileList == old(harFileList)
        else expectingSelection && harFileList == files
    {
      var files := HarFiles(dir.listing);
      if |files| == 0 {
        expectingSelection := false;
        return;
      }
      harFileList := files;
      expectingSelection := true;
    }

    /**
     * The console handler for one line `key`. In selection mode the line is a
     * choice: a valid one stops the listeners and then loads the chosen archive,
     * and either way the mode ends with an empty list. Otherwise `add` arms the
     * selection, `add <name>` stops and then loads `<name>`, `rm` stops and then
     * clears the session, and any other line changes nothing.
     */
    method HandleInput(key: string, dir: HarsDir, parse: Parser) returns (stop: Option<StopBarrier>)
      requires Valid()
      modifies this`servers, this`apps, this`activeName, this`activeApis, this`expectingSelection, this`harFileList
      ensures Valid()
      ensures var cmd := Classify(Trim(key), old(expectingSelection), old(harFileList));
        match cmd
        case Select(Some(name)) => stop.Some? && stop.value.callback == LoadArchive(name)
        case Add(name) => stop.Some? && stop.value.callback == LoadArchive(name)
        case Remove => stop.Some? && stop.value.callback == ClearSession
        case _ => stop.None?
      ensures stop.Some? ==> fresh(stop.value) && stop.value.Started(this, old(servers))
      ensures AfterLine(if stop.Some? then Some(stop.value.callback) else None,
                        dir, parse, old(servers), old(apps), old(activeName), old(activeApis))
      ensures old(expectingSelection) ==> !expectingSelection && harFileList == []
      ensures !old(expectingSelection) && Trim(key) == "add" ==>
        var files := HarFiles(dir.listing);
        expectingSelection == (files != []) && harFileList == files
      ensures !old(expectingSelection) && Trim(key) != "add" ==>
        expectingSelection == old(expectingSelection) && harFileList == old(harFileList)
    {
      var input := Trim(key);
      if expectingSelection {
        stop := HandleSelection(input, dir, parse);
      } else {
        stop := HandleCommand(input, dir, parse);
      }
    }

    /** Lines 307-319: the line read in selection mode. */
    method HandleSelection(input: string, dir: HarsDir, parse: Parser) returns (stop: Option<StopBarrier>)
      requires Valid() && expectingSelection
      modifies this`servers, this`apps, this`activeName, this`activeApis, this`expectingSelection, this`harFileList
      ensures Valid()
      ensures !expectingSelection && harFileList == []
      ensures match Selection(input, old(harFileList))
        case Some(name) => stop.Some? && stop.value.callback == LoadArchive(name)
        case None => stop.None?
      ensures stop.Some? ==> fresh(stop.value) && stop.value.Started(this, old(servers))
      ensures AfterLine(if stop.Some? then Some(stop.value.callback) else None,
                        dir, parse, old(servers), old(apps), old(activeName), old(activeApis))
    {
      ghost var s0, a0, n0, g0 := servers, apps, activeName, activeApis;
      var choice := ParseInt(input);
      if choice.Some? && choice.value >= 1 && choice.value <= |harFileList| {
        var selectedHar := harFileList[choice.value - 1];
        assert Selection(input, old(harFileList)) == Some(selectedHar);
        var barrier := StopServers(LoadArchive(selectedHar), dir, parse);
        stop := Some(barrier);
      } else {
        assert Selection(input, old(harFileList)) == None;
        ListHarFilesNumbered(dir);
        stop := None;
        assert SessionIs(s0, a0, n0, g0);
      }
      expectingSelection := false;
      harFileList := [];
    }

    /** Lines 322-349: a command line outside selection mode. */
    method HandleCommand(input: string, dir: HarsDir, parse: Parser) returns (stop: Option<StopBarrier>)
      requires Valid() && !expectingSelection
      modifies this`servers, this`apps, this`activeName, this`activeApis, this`expectingSelection, this`harFileList
      ensures Valid()
      ensures match Classify(input, false, [])
        case Add(name) => stop.Some? && stop.value.callback == LoadArchive(name)
        case Remove => stop.Some? && stop.value.callback == ClearSession
        case _ => stop.None?
      ensures stop.Some? ==> fresh(stop.value) && stop.value.Started(this, old(servers))
      ensures AfterLine(if stop.Some? then Some(stop.value.callback) else None,
                        dir, parse, old(servers), old(apps), old(activeName), old(activeApis))
      ensures input == "add" ==>
        var files := HarFiles(dir.listing);
        expectingSelection == (files != []) && harFileList == files
      ensures input != "add" ==> !expectingSelection && harFileList == []
    {
      stop := None;
      if input == "status" || input == "ls" || input == "help" {
        // presentation only
      } else if input == "add" {
        ListHarFilesNumbered(dir);
      } else if StartsWith(input, "add ") {
        var name := AddName(input);
        var barrier := StopServers(LoadArchive(name), dir, parse);
        stop := Some(barrier);
      } else if input == "rm" {
        var barrier := StopServers(ClearSession, dir, parse);
        stop := Some(barrier);
      }
    }
  }

  /**
   * `add <name>` stops the listeners before `loadHar` looks at the archive: when
   * the barrier completes and the archive is missing or has no endpoints, no
   * listener is left, yet the previous archive is still the active one.
   */
  lemma RejectedLoadAfterStop(rt: Runtime, name: string, dir: HarsDir, parse: Parser,
                              n0: Option<string>, g0: seq<PortGroup>)
    requires rt.AfterFinish(LoadArchive(name), dir, parse, [], map[], n0, g0)
    requires name !in dir.archives || Convert(Some(dir.archives[name]), rt.hostMap, parse) == []
    ensures rt.servers == [] && rt.apps == map[]
    ensures rt.activeName == n0 && rt.activeApis == g0
  {
    assert LoadOutcome(name, dir, rt.hostMap, parse) == None;
  }

  /**
   * The barrier of one `stopServers` call: the ports it snapshot, the close
   * completions seen so far (`closed`), and how often the callback has run.
   */
  class StopBarrier {
    const rt: Runtime
    const ports: seq<int>
    const callback: Continuation
    var closed: nat
    ghost var closedPorts: set<int>
    var fired: nat

    ghost predicate Valid()
      reads this
    {
      && NoDup(ports)
      && closedPorts <= Elems(ports)
      && closed == |closedPorts|
      && fired == (if closed == |ports| then 1 else 0)
    }

    /** A barrier just made by `stopServers` on runtime `r` over the ports `p`: nothing closed yet, and fired only if there was nothing to wait for. */
    ghost predicate Started(r: Runtime, p: seq<int>)
      reads this
    {
      Valid() && rt == r && ports == p && closedPorts == {} && fired == (if p == [] then 1 else 0)
    }

    constructor (rt: Runtime, ports: seq<int>, callback: Continuation)
      requires NoDup(ports)
      ensures Valid()
      ensures this.rt == rt && this.ports == ports && this.callback == callback
      ensures closed == 0 && closedPorts == {}
      ensures fired == (if ports == [] then 1 else 0)
    {
      this.rt := rt;
      this.ports := ports;
      this.callback := callback;
      closed := 0;
      closedPorts := {};
      fired := if |ports| == 0 then 1 else 0;
    }

    /**
     * The close callback of listener `port`. The callback runs exactly at the
     * close that completes the set, once, after `servers` has been cleared.
     */
    method OnClosed(port: int, dir: HarsDir, parse: Parser)
      requires Valid() && rt.Valid()
      requires port in ports && port !in closedPorts
      modifies this`closed, this`closedPorts, this`fired
      modifies rt`servers, rt`apps, rt`activeName, rt`activeApis
      ensures Valid() && rt.Valid()
      ensures closedPorts == old(closedPorts) + {port} && closed == old(closed) + 1
      ensures old(fired) == 0
      ensures fired == 1 <==> closedPorts == Elems(ports)
      ensures fired == 0 ==> rt.SessionIs(old(rt.servers), old(rt.apps), old(rt.activeName), old(rt.activeApis))
      ensures fired == 1 ==> rt.AfterFinish(callback, dir, parse, [], map[], old(rt.activeName), old(rt.activeApis))
    {
      NoDupElems(ports);
      SubsetCard(closedPorts, Elems(ports));
      closed := closed + 1;
      closedPorts := closedPorts + {port};
      SubsetCard(closedPorts, Elems(ports));
      if closed == |ports| {
        rt.ClearServers();
        fired := fired + 1;
        rt.Finish(callback, dir, parse);
      }
    }
  }
}
