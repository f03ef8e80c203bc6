/**
 * Conversion of a recorded HTTP Archive into per-port endpoint groups
 * (`convertHarToApis`). URL parsing is abstracted: each entry carries the
 * origin (`protocol + "//" + host`) and the pathname of its request URL.
 */
module HarConvert {
  import opened Wrappers
  import opened JsText
  import opened JsonValue
  import opened HostMap
  import opened KeyOrder

  /** The fields of one `log.entries[]` item that the converter reads. */
  datatype HarEntry = HarEntry(verb: string, origin: string, pathname: string, status: int, text: Option<string>)

  /** A parsed archive document: `log.entries` may be absent. */
  datatype Archive = Archive(entries: Option<seq<HarEntry>>)

  datatype Endpoint = Endpoint(verb: string, path: string, status: int, body: Json)

  datatype PortGroup = PortGroup(port: int, endpoints: seq<Endpoint>)

  /** `harData.log?.entries || []` */
  function EntriesOf(archive: Archive): seq<HarEntry>
  {
    archive.entries.GetOr([])
  }

  // ---------------------------------------------------------------- paths

  /** `s.replace(/^\//, "")`: removes one leading "/" if there is one. */
  function StripLeadingSlash(s: string): string
  {
    if StartsWith(s, "/") then s[1..] else s
  }

  /**
   * The route path of an entry: one leading "/" removed; then, when the
   * prefix is non-empty and the path starts with it (a plain textual test,
   * with no check that the prefix ends at a "/"), the prefix and at most one
   * following "/" are removed.
   */
  function NormalizePath(pathname: string, removePrefix: string): string
  {
    var p := StripLeadingSlash(pathname);
    if removePrefix != "" && StartsWith(p, removePrefix) then
      var rest := p[|removePrefix|..];
      if StartsWith(rest, "/") then rest[1..] else rest
    else p
  }

  /**
   * What NormalizePath cut off: the pathname is the leading "/" (if any), then
   * either nothing (no prefix match) or the prefix followed by at most one "/",
   * then the route path.
   */
  lemma NormalizePathRebuild(pathname: string, removePrefix: string)
    ensures var lead := if StartsWith(pathname, "/") then "/" else "";
      var q := StripLeadingSlash(pathname);
      var r := NormalizePath(pathname, removePrefix);
      if removePrefix != "" && StartsWith(q, removePrefix) then
        if StartsWith(q[|removePrefix|..], "/") then pathname == lead + removePrefix + "/" + r
        else pathname == lead + removePrefix + r
      else pathname == lead + r
  {
    var lead := if StartsWith(pathname, "/") then "/" else "";
    var q := StripLeadingSlash(pathname);
    assert pathname == lead + q;
    if removePrefix != "" && StartsWith(q, removePrefix) {
      var rest := q[|removePrefix|..];
      assert q == removePrefix + rest;
      if StartsWith(rest, "/") {
        assert rest == "/" + rest[1..];
        assert pathname == lead + removePrefix + "/" + rest[1..];
      }
    }
  }

  /** With an empty prefix only the leading "/" goes, and only one of them. */
  lemma NormalizePathNoPrefix(pathname: string)
    ensures NormalizePath(pathname, "") == StripLeadingSlash(pathname)
    ensures NormalizePath("//" + pathname, "") == "/" + pathname
  {
    var twice := "//" + pathname;
    assert StartsWith(twice, "/");
    assert twice[1..] == "/" + pathname;
    assert StripLeadingSlash(twice) == "/" + pathname;
  }

  /**
   * The prefix test has no boundary check: "v1" is stripped from "/v1/x",
   * giving "x", and also from "/v123/x", giving "23/x".
   */
  lemma PrefixStripWithoutBoundary()
    ensures NormalizePath("/v1/x", "v1") == "x"
    ensures NormalizePath("/v123/x", "v1") == "23/x"
    ensures NormalizePath("/v1/users/42", "v1") == "users/42"
  {
    assert StripLeadingSlash("/v123/x") == "v123/x";
    assert "v123/x"[..2] == "v1";
    assert "v123/x"[2..] == "23/x";
    assert "23/x"[..1] == "2";
    assert StripLeadingSlash("/v1/users/42") == "v1/users/42";
    assert "v1/users/42"[..2] == "v1";
    assert "v1/users/42"[2..] == "/users/42";
  }

  // ---------------------------------------------------------------- bodies

  /** `text || fallback` for a string that may be missing. */
  function TextOr(text: Option<string>, fallback: string): string
  {
    if text.None? || text.value == "" then fallback else text.value
  }

  /** The fallback body `{ raw: text }`. */
  function RawWrapper(text: string): Json
  {
    JObject([("raw", JString(text))])
  }

  /**
   * The response body: the parse of the recorded text, of "{}" when the text is
   * missing or empty, and `{ raw: text }` when parsing throws.
   */
  function BodyOf(text: Option<string>, parse: Parser): Json
  {
    match parse(TextOr(text, "{}"))
    case Some(v) => v
    case None => RawWrapper(TextOr(text, ""))
  }

  /** Every text yields a body: parsed, empty object, or the raw-text wrapper. */
  lemma BodyCases(text: Option<string>, parse: Parser)
    ensures (text.None? || text == Some("")) && ParsesEmptyObject(parse) ==> BodyOf(text, parse) == EmptyObject
    ensures text.Some? && text.value != "" && parse(text.value).Some? ==> BodyOf(text, parse) == parse(text.value).value
    ensures text.Some? && text.value != "" && parse(text.value).None? ==> BodyOf(text, parse) == RawWrapper(text.value)
  {
  }

  // ---------------------------------------------------------------- grouping

  /** Entry `e` has a mapped origin whose port is `port`. */
  predicate Maps(hostMap: map<string, HostEntry>, e: HarEntry, port: int) {
    e.origin in hostMap && hostMap[e.origin].port == port
  }

  /** Some entry of `entries` maps to `port`. */
  predicate MappedPort(entries: seq<HarEntry>, hostMap: map<string, HostEntry>, port: int) {
    exists i :: 0 <= i < |entries| && Maps(hostMap, entries[i], port)
  }

  /** The endpoint made from a mapped entry. */
  function EndpointOf(e: HarEntry, h: HostEntry, parse: Parser): Endpoint
  {
    Endpoint(e.verb, NormalizePath(e.pathname, h.removePrefix), e.status, BodyOf(e.text, parse))
  }

  /** The endpoints of the entries that map to `port`, in archive order. */
  function Bucket(entries: seq<HarEntry>, hostMap: map<string, HostEntry>, parse: Parser, port: int): seq<Endpoint>
  {
    if entries == [] then []
    else
      var e := entries[|entries| - 1];
      Bucket(entries[..|entries| - 1], hostMap, parse, port)
        + if Maps(hostMap, e, port) then [EndpointOf(e, hostMap[e.origin], parse)] else []
  }

  /** The mapped ports, each once, in the order the archive first reaches them. */
  function FirstSeen(entries: seq<HarEntry>, hostMap: map<string, HostEntry>): seq<int>
  {
    if entries == [] then []
    else
      var e := entries[|entries| - 1];
      var ports := FirstSeen(entries[..|entries| - 1], hostMap);
      if e.origin in hostMap && hostMap[e.origin].port !in ports then ports + [hostMap[e.origin].port]
      else ports
  }

  /** The conversion's result: one group per key of the per-port table, in the object's key order. */
  function Groups(entries: seq<HarEntry>, hostMap: map<string, HostEntry>, parse: Parser): seq<PortGroup>
  {
    var ports := OwnKeys(FirstSeen(entries, hostMap));
    seq(|ports|, i requires 0 <= i < |ports| => PortGroup(ports[i], Bucket(entries, hostMap, parse, ports[i])))
  }

  /** Groups listed on the own-key order of `keys` cover every key, once each, array indices first and ascending. */
  lemma GroupsInOwnKeyOrder(keys: seq<int>, groups: seq<PortGroup>)
    requires |groups| == |OwnKeys(keys)|
    requires forall i :: 0 <= i < |groups| ==> groups[i].port == OwnKeys(keys)[i]
    ensures forall k :: k in keys ==> exists i :: 0 <= i < |groups| && groups[i].port == k
    ensures NoDup(keys) ==> forall i, j :: 0 <= i < j < |groups| ==> groups[i].port != groups[j].port
    ensures NoDup(keys) ==> forall i, j :: 0 <= i < j < |groups| && IsArrayIndex(groups[j].port) ==>
      IsArrayIndex(groups[i].port) && groups[i].port < groups[j].port
  {
    var ports := OwnKeys(keys);
    OwnKeysCovers(keys);
    forall k | k in keys ensures exists i :: 0 <= i < |groups| && groups[i].port == k {
      var i :| 0 <= i < |ports| && ports[i] == k;
      assert groups[i].port == k;
    }
    if NoDup(keys) {
      OwnKeysOrder(keys);
      OwnKeysIndexFirst(keys);
    }
  }

  /** `convertHarToApis` on an archive that may be missing (`None`: no such file). */
  function Convert(file: Option<Archive>, hostMap: map<string, HostEntry>, parse: Parser): seq<PortGroup>
  {
    if file.None? then [] else Groups(EntriesOf(file.value), hostMap, parse)
  }

  /**
   * `Object.entries(endpointsByPort).map(...)`: one group per key of the table,
   * with that key's endpoints, in own-key order.
   */
  function ObjectEntries(keys: seq<int>, table: map<int, seq<Endpoint>>): (groups: seq<PortGroup>)
    requires forall k :: k in keys ==> k in table
    ensures |groups| == |keys|
    ensures forall i :: 0 <= i < |groups| ==> groups[i].port in keys && groups[i].endpoints == table[groups[i].port]
    ensures forall k :: k in keys ==> exists i :: 0 <= i < |groups| && groups[i].port == k
    ensures NoDup(keys) ==> forall i, j :: 0 <= i < j < |groups| ==> groups[i].port != groups[j].port
    ensures NoDup(keys) ==> forall i, j :: 0 <= i < j < |groups| && IsArrayIndex(groups[j].port) ==>
      IsArrayIndex(groups[i].port) && groups[i].port < groups[j].port
  {
    OwnKeysMembers(keys);
    OwnKeysLength(keys);
    var groups := EntriesInOrder(OwnKeys(keys), table);
    GroupsInOwnKeyOrder(keys, groups);
    groups
  }

  /** The table's entries listed in the order `ports`. */
  function EntriesInOrder(ports: seq<int>, table: map<int, seq<Endpoint>>): (groups: seq<PortGroup>)
    requires forall i :: 0 <= i < |ports| ==> ports[i] in table
    ensures |groups| == |ports|
    ensures forall i :: 0 <= i < |groups| ==> groups[i].port == ports[i] && groups[i].endpoints == table[ports[i]]
  {
    seq(|ports|, i requires 0 <= i < |ports| => PortGroup(ports[i], table[ports[i]]))
  }

  /**
   * `convertHarToApis`: walks the entries once, appending each mapped entry's
   * endpoint to the bucket of its port (creating the bucket on first use), then
   * lists the buckets in own-key order.
   */
  method ConvertHarToApis(file: Option<Archive>, hostMap: map<string, HostEntry>, parse: Parser)
    returns (apis: seq<PortGroup>)
    ensures apis == Convert(file, hostMap, parse)
  {
    if file.None? {
      return [];
    }
    var entries := EntriesOf(file.value);
    var endpointsByPort: map<int, seq<Endpoint>> := map[];
    var keys: seq<int> := [];
    var i := 0;
    while i < |entries|
      invariant 0 <= i <= |entries|
      invariant TableHolds(entries[..i], hostMap, parse, keys, endpointsByPort)
    {
      var entry := entries[i];
      ghost var keys0, table0 := keys, endpointsByPort;
      if entry.origin in hostMap {
        var hostEntry := hostMap[entry.origin];
        var port := hostEntry.port;
        var p := NormalizePath(entry.pathname, hostEntry.removePrefix);
        var body := BodyOf(entry.text, parse);
        if port !in endpointsByPort {
          endpointsByPort := endpointsByPort[port := []];
          keys := keys + [port];
        }
        endpointsByPort := endpointsByPort[port := endpointsByPort[port] + [Endpoint(entry.verb, p, entry.status, body)]];
      }
      TableStep(entries, i, hostMap, parse, keys0, table0, keys, endpointsByPort);
      i := i + 1;
    }
    assert entries[..i] == entries;
    apis := ObjectEntries(keys, endpointsByPort);
    TableEntriesAreGroups(entries, hostMap, parse, keys, endpointsByPort);
  }

  /** The per-port table after walking `prefix`: the ports first reached, and each one's bucket. */
  ghost predicate TableHolds(prefix: seq<HarEntry>, hostMap: map<string, HostEntry>, parse: Parser,
                             keys: seq<int>, table: map<int, seq<Endpoint>>)
  {
    && keys == FirstSeen(prefix, hostMap)
    && (forall p :: p in table <==> p in keys)
    && (forall p :: p in table ==> table[p] == Bucket(prefix, hostMap, parse, p))
  }

  /** One step of the walk: appending the entry's endpoint to its port's bucket keeps the table right. */
  lemma TableStep(entries: seq<HarEntry>, i: nat, hostMap: map<string, HostEntry>, parse: Parser,
                  keys0: seq<int>, table0: map<int, seq<Endpoint>>, keys: seq<int>, table: map<int, seq<Endpoint>>)
    requires i < |entries|
    requires TableHolds(entries[..i], hostMap, parse, keys0, table0)
    requires var e := entries[i];
      e.origin !in hostMap ==> keys == keys0 && table == table0
    requires var e := entries[i];
      e.origin in hostMap ==>
        var port := hostMap[e.origin].port;
        && keys == (if port in table0 then keys0 else keys0 + [port])
        && table == table0[port := (if port in table0 then table0[port] else []) + [EndpointOf(e, hostMap[e.origin], parse)]]
    ensures TableHolds(entries[..i + 1], hostMap, parse, keys, table)
  {
    forall q | q in table
      ensures table[q] == Bucket(entries[..i + 1], hostMap, parse, q)
    {
      BucketStep(entries, i, hostMap, parse, keys0, table0, table, q);
    }
    KeysStep(entries, i, hostMap, parse, keys0, table0, keys, table);
  }

  /** The ports first reached, and the table's keys, after one step of the walk. */
  lemma KeysStep(entries: seq<HarEntry>, i: nat, hostMap: map<string, HostEntry>, parse: Parser,
                 keys0: seq<int>, table0: map<int, seq<Endpoint>>, keys: seq<int>, table: map<int, seq<Endpoint>>)
    requires i < |entries|
    requires keys0 == FirstSeen(entries[..i], hostMap)
    requires forall p :: p in table0 <==> p in keys0
    requires var e := entries[i];
      e.origin !in hostMap ==> keys == keys0 && table == table0
    requires var e := entries[i];
      e.origin in hostMap ==>
        var port := hostMap[e.origin].port;
        && keys == (if port in table0 then keys0 else keys0 + [port])
        && table.Keys == table0.Keys + {port}
    ensures keys == FirstSeen(entries[..i + 1], hostMap)
    ensures forall p :: p in table <==> p in keys
  {
    PrefixStep(entries, i, hostMap, parse);
  }

  /** One port's bucket after one step of the walk. */
  lemma BucketStep(entries: seq<HarEntry>, i: nat, hostMap: map<string, HostEntry>, parse: Parser,
                   keys0: seq<int>, table0: map<int, seq<Endpoint>>, table: map<int, seq<Endpoint>>, q: int)
    requires i < |entries|
    requires keys0 == FirstSeen(entries[..i], hostMap)
    requires forall p :: p in table0 <==> p in keys0
    requires forall p :: p in table0 ==> table0[p] == Bucket(entries[..i], hostMap, parse, p)
    requires var e := entries[i];
      e.origin !in hostMap ==> table == table0
    requires var e := entries[i];
      e.origin in hostMap ==>
        var port := hostMap[e.origin].port;
        table == table0[port := (if port in table0 then table0[port] else []) + [EndpointOf(e, hostMap[e.origin], parse)]]
    requires q in table
    ensures table[q] == Bucket(entries[..i + 1], hostMap, parse, q)
  {
    var e := entries[i];
    PrefixStep(entries, i, hostMap, parse);
    if Maps(hostMap, e, q) && q !in table0 {
      FirstSeenPorts(entries[..i], hostMap);
      BucketNonEmpty(entries[..i], hostMap, parse, q);
    }
  }

  /** A table holding every mapped port's bucket, listed in own-key order, is the conversion's result. */
  lemma TableEntriesAreGroups(entries: seq<HarEntry>, hostMap: map<string, HostEntry>, parse: Parser,
                              keys: seq<int>, table: map<int, seq<Endpoint>>)
    requires keys == FirstSeen(entries, hostMap)
    requires forall p :: p in table <==> p in keys
    requires forall p :: p in table ==> table[p] == Bucket(entries, hostMap, parse, p)
    ensures ObjectEntries(keys, table) == Groups(entries, hostMap, parse)
  {
    var r := ObjectEntries(keys, table);
    var g := Groups(entries, hostMap, parse);
    OwnKeysLength(keys);
    assert |r| == |g|;
    forall k | 0 <= k < |r| ensures r[k] == g[k] {
    }
  }

  /** Extending the walked prefix by one entry extends the port list and that entry's bucket. */
  lemma PrefixStep(entries: seq<HarEntry>, i: nat, hostMap: map<string, HostEntry>, parse: Parser)
    requires i < |entries|
    ensures var e := entries[i];
      FirstSeen(entries[..i + 1], hostMap)
        == if e.origin in hostMap && hostMap[e.origin].port !in FirstSeen(entries[..i], hostMap)
           then FirstSeen(entries[..i], hostMap) + [hostMap[e.origin].port]
           else FirstSeen(entries[..i], hostMap)
    ensures var e := entries[i];
      forall p :: Bucket(entries[..i + 1], hostMap, parse, p)
        == Bucket(entries[..i], hostMap, parse, p)
           + (if Maps(hostMap, e, p) then [EndpointOf(e, hostMap[e.origin], parse)] else [])
  {
    assert entries[..i + 1][..i] == entries[..i];
  }

  // ---------------------------------------------------------------- properties

  /** Each mapped port is listed once, and exactly the mapped ports are listed. */
  lemma {:induction false} FirstSeenPorts(entries: seq<HarEntry>, hostMap: map<string, HostEntry>)
    ensures NoDup(FirstSeen(entries, hostMap))
    ensures forall p :: p in FirstSeen(entries, hostMap) <==> MappedPort(entries, hostMap, p)
  {
    if entries != [] {
      var init := entries[..|entries| - 1];
      var e := entries[|entries| - 1];
      FirstSeenPorts(init, hostMap);
      forall p ensures MappedPort(entries, hostMap, p) <==> MappedPort(init, hostMap, p) || Maps(hostMap, e, p) {
        if MappedPort(entries, hostMap, p) {
          var i :| 0 <= i < |entries| && Maps(hostMap, entries[i], p);
          if i < |init| { assert Maps(hostMap, init[i], p); }
        }
        if MappedPort(init, hostMap, p) {
          var i :| 0 <= i < |init| && Maps(hostMap, init[i], p);
          assert Maps(hostMap, entries[i], p);
        }
      }
    }
  }

  /** A port's bucket is non-empty exactly when some entry maps to that port. */
  lemma {:induction false} BucketNonEmpty(entries: seq<HarEntry>, hostMap: map<string, HostEntry>, parse: Parser, port: int)
    ensures Bucket(entries, hostMap, parse, port) != [] <==> MappedPort(entries, hostMap, port)
  {
    if entries != [] {
      var init := entries[..|entries| - 1];
      BucketNonEmpty(init, hostMap, parse, port);
      if MappedPort(entries, hostMap, port) {
        var i :| 0 <= i < |entries| && Maps(hostMap, entries[i], port);
        if i < |init| { assert Maps(hostMap, init[i], port); }
      }
      if MappedPort(init, hostMap, port) {
        var i :| 0 <= i < |init| && Maps(hostMap, init[i], port);
        assert Maps(hostMap, entries[i], port);
      }
    }
  }

  /** Buckets keep archive order: the bucket of a concatenation is the concatenation of the buckets. */
  lemma {:induction false} BucketAppend(a: seq<HarEntry>, b: seq<HarEntry>, hostMap: map<string, HostEntry>, parse: Parser, port: int)
    ensures Bucket(a + b, hostMap, parse, port) == Bucket(a, hostMap, parse, port) + Bucket(b, hostMap, parse, port)
  {
    if b == [] {
      assert a + b == a;
    } else {
      var binit := b[..|b| - 1];
      assert (a + b)[..|a + b| - 1] == a + binit;
      BucketAppend(a, binit, hostMap, parse, port);
    }
  }

  /**
   * The groups partition the mapped entries by port: one group per distinct mapped
   * port, none for an unmapped one, no group empty, and each group holding the
   * endpoints of exactly the entries mapped to its port, in archive order.
   */
  lemma GroupsPartition(entries: seq<HarEntry>, hostMap: map<string, HostEntry>, parse: Parser)
    ensures var g := Groups(entries, hostMap, parse);
      && (forall k, l :: 0 <= k < l < |g| ==> g[k].port != g[l].port)
      && (forall p :: (exists k :: 0 <= k < |g| && g[k].port == p) <==> MappedPort(entries, hostMap, p))
      && (forall k :: 0 <= k < |g| ==> g[k].endpoints == Bucket(entries, hostMap, parse, g[k].port))
      && (forall k :: 0 <= k < |g| ==> g[k].endpoints != [])
  {
    var g := Groups(entries, hostMap, parse);
    forall k, l | 0 <= k < l < |g| ensures g[k].port != g[l].port {
      GroupPortsDistinct(entries, hostMap, parse, k, l);
    }
    forall p ensures (exists k :: 0 <= k < |g| && g[k].port == p) <==> MappedPort(entries, hostMap, p) {
      GroupForPort(entries, hostMap, parse, p);
    }
    forall k | 0 <= k < |g| ensures g[k].endpoints != [] {
      GroupNonEmpty(entries, hostMap, parse, k);
    }
  }

  lemma GroupPortsDistinct(entries: seq<HarEntry>, hostMap: map<string, HostEntry>, parse: Parser, k: nat, l: nat)
    requires k < l < |Groups(entries, hostMap, parse)|
    ensures Groups(entries, hostMap, parse)[k].port != Groups(entries, hostMap, parse)[l].port
  {
    var seen := FirstSeen(entries, hostMap);
    var ports := OwnKeys(seen);
    FirstSeenPorts(entries, hostMap);
    OwnKeysOrder(seen);
    GroupPorts(entries, hostMap, parse);
    assert ports[k] != ports[l];
  }

  lemma GroupNonEmpty(entries: seq<HarEntry>, hostMap: map<string, HostEntry>, parse: Parser, k: nat)
    requires k < |Groups(entries, hostMap, parse)|
    ensures Groups(entries, hostMap, parse)[k].endpoints != []
  {
    var seen := FirstSeen(entries, hostMap);
    var ports := OwnKeys(seen);
    FirstSeenPorts(entries, hostMap);
    OwnKeysMembers(seen);
    GroupPorts(entries, hostMap, parse);
    assert ports[k] in seen;
    BucketNonEmpty(entries, hostMap, parse, ports[k]);
  }

  /** The groups follow the first-seen ports in own-key order, each with its port's bucket. */
  lemma GroupPorts(entries: seq<HarEntry>, hostMap: map<string, HostEntry>, parse: Parser)
    ensures var g := Groups(entries, hostMap, parse);
      var ports := OwnKeys(FirstSeen(entries, hostMap));
      && |g| == |ports|
      && forall k :: 0 <= k < |g| ==> g[k].port == ports[k] && g[k].endpoints == Bucket(entries, hostMap, parse, ports[k])
  {
  }

  /** A port has a group exactly when some entry maps to it. */
  lemma GroupForPort(entries: seq<HarEntry>, hostMap: map<string, HostEntry>, parse: Parser, p: int)
    ensures var g := Groups(entries, hostMap, parse);
      (exists k :: 0 <= k < |g| && g[k].port == p) <==> MappedPort(entries, hostMap, p)
  {
    var g := Groups(entries, hostMap, parse);
    var seen := FirstSeen(entries, hostMap);
    var ports := OwnKeys(seen);
    FirstSeenPorts(entries, hostMap);
    OwnKeysOrder(seen);
    GroupPorts(entries, hostMap, parse);
    if MappedPort(entries, hostMap, p) {
      assert p in multiset(ports);
      var k :| 0 <= k < |ports| && ports[k] == p;
      assert g[k].port == p;
    }
    if exists k :: 0 <= k < |g| && g[k].port == p {
      var k :| 0 <= k < |g| && g[k].port == p;
      assert ports[k] == p;
      assert p in multiset(seen);
    }
  }

  /**
   * Groups whose port is an array index (0 .. 2^32 - 2) come first, in strictly
   * ascending port order; when every mapped port is one, the whole list is ascending.
   */
  lemma GroupsOrder(entries: seq<HarEntry>, hostMap: map<string, HostEntry>, parse: Parser)
    ensures var g := Groups(entries, hostMap, parse);
      forall k, l :: 0 <= k < l < |g| && IsArrayIndex(g[l].port) ==> IsArrayIndex(g[k].port) && g[k].port < g[l].port
    ensures var g := Groups(entries, hostMap, parse);
      (forall p :: MappedPort(entries, hostMap, p) ==> IsArrayIndex(p)) ==>
        forall k, l :: 0 <= k < l < |g| ==> g[k].port < g[l].port
  {
    var seen := FirstSeen(entries, hostMap);
    FirstSeenPorts(entries, hostMap);
    GroupPorts(entries, hostMap, parse);
    OwnKeysIndexFirst(seen);
    if forall p :: MappedPort(entries, hostMap, p) ==> IsArrayIndex(p) {
      forall i | 0 <= i < |seen| ensures IsArrayIndex(seen[i]) {
        assert seen[i] in seen;
      }
      OwnKeysAscending(seen);
    }
  }

  /** An entry with an unmapped origin contributes nothing: removing it changes no group. */
  lemma UnmappedEntryIgnored(a: seq<HarEntry>, e: HarEntry, b: seq<HarEntry>, hostMap: map<string, HostEntry>, parse: Parser)
    requires e.origin !in hostMap
    ensures Groups(a + [e] + b, hostMap, parse) == Groups(a + b, hostMap, parse)
  {
    var with := a + [e] + b;
    var without := a + b;
    FirstSeenSkip(a, e, b, hostMap);
    GroupPorts(with, hostMap, parse);
    GroupPorts(without, hostMap, parse);
    var g1 := Groups(with, hostMap, parse);
    var g2 := Groups(without, hostMap, parse);
    forall k | 0 <= k < |g1| ensures g1[k] == g2[k] {
      BucketSkip(a, e, b, hostMap, parse, g1[k].port);
    }
  }

  /** The bucket of any port is the same with or without an unmapped entry. */
  lemma BucketSkip(a: seq<HarEntry>, e: HarEntry, b: seq<HarEntry>, hostMap: map<string, HostEntry>, parse: Parser, p: int)
    requires e.origin !in hostMap
    ensures Bucket(a + [e] + b, hostMap, parse, p) == Bucket(a + b, hostMap, parse, p)
  {
    BucketAppend(a + [e], b, hostMap, parse, p);
    BucketAppend(a, [e], hostMap, parse, p);
    BucketAppend(a, b, hostMap, parse, p);
    assert Bucket([e], hostMap, parse, p) == [] by {
      assert [e][..0] == [];
    }
  }

  lemma {:induction false} FirstSeenSkip(a: seq<HarEntry>, e: HarEntry, b: seq<HarEntry>, hostMap: map<string, HostEntry>)
    requires e.origin !in hostMap
    ensures FirstSeen(a + [e] + b, hostMap) == FirstSeen(a + b, hostMap)
  {
    if b == [] {
      assert (a + [e] + b)[..|a| ] == a;
      assert a + b == a;
    } else {
      var binit := b[..|b| - 1];
      assert (a + [e] + b)[..|a + [e] + b| - 1] == a + [e] + binit;
      assert (a + b)[..|a + b| - 1] == a + binit;
      FirstSeenSkip(a, e, binit, hostMap);
    }
  }

  /**
   * Every mapped entry lands in the group of its port, at the position given by
   * the number of earlier entries mapped to the same port.
   */
  lemma MappedEntryLands(entries: seq<HarEntry>, hostMap: map<string, HostEntry>, parse: Parser, i: nat)
    requires i < |entries| && entries[i].origin in hostMap
    ensures var g := Groups(entries, hostMap, parse);
      var e := entries[i];
      var rank := |Bucket(entries[..i], hostMap, parse, hostMap[e.origin].port)|;
      exists k :: 0 <= k < |g| && g[k].port == hostMap[e.origin].port
        && rank < |g[k].endpoints| && g[k].endpoints[rank] == EndpointOf(e, hostMap[e.origin], parse)
  {
    var g := Groups(entries, hostMap, parse);
    var e := entries[i];
    var port := hostMap[e.origin].port;
    BucketHoldsEntry(entries, hostMap, parse, i);
    GroupsPartition(entries, hostMap, parse);
    assert MappedPort(entries, hostMap, port) by { assert Maps(hostMap, entries[i], port); }
    var k :| 0 <= k < |g| && g[k].port == port;
    assert g[k].endpoints == Bucket(entries, hostMap, parse, port);
  }

  /** A mapped entry's endpoint sits in its port's bucket after those of the earlier entries of that port. */
  lemma BucketHoldsEntry(entries: seq<HarEntry>, hostMap: map<string, HostEntry>, parse: Parser, i: nat)
    requires i < |entries| && entries[i].origin in hostMap
    ensures var e := entries[i];
      var port := hostMap[e.origin].port;
      var rank := |Bucket(entries[..i], hostMap, parse, port)|;
      rank < |Bucket(entries, hostMap, parse, port)|
      && Bucket(entries, hostMap, parse, port)[rank] == EndpointOf(e, hostMap[e.origin], parse)
  {
    var e := entries[i];
    var port := hostMap[e.origin].port;
    var ep := EndpointOf(e, hostMap[e.origin], parse);
    var front, back := entries[..i], entries[i + 1..];
    assert entries == front + [e] + back;
    BucketAppend(front + [e], back, hostMap, parse, port);
    BucketAppend(front, [e], hostMap, parse, port);
    assert Bucket([e], hostMap, parse, port) == [ep] by {
      assert [e][..0] == [];
    }
    assert Bucket(entries, hostMap, parse, port) == Bucket(front, hostMap, parse, port) + [ep] + Bucket(back, hostMap, parse, port);
  }

  /**
   * One archive entry end to end: origin "https://api.example.com" on port 4000 with prefix
   * "v1"; the request `GET /v1/users/42` answered 200 with `{"id":42}` becomes one
   * group on port 4000 holding the endpoint `GET users/42`.
   */
  lemma SingleEntryExample(parse: Parser, v: Json)
    requires parse("{\"id\":42}") == Some(v)
    ensures var hostMap := BuildHostMap([HostRule("https://api.example.com", 4000, Some("v1"))]);
      var entry := HarEntry("GET", "https://api.example.com", "/v1/users/42", 200, Some("{\"id\":42}"));
      Groups([entry], hostMap, parse) == [PortGroup(4000, [Endpoint("GET", "users/42", 200, v)])]
  {
    var rule := HostRule("https://api.example.com", 4000, Some("v1"));
    var hostMap := BuildHostMap([rule]);
    var entry := HarEntry("GET", "https://api.example.com", "/v1/users/42", 200, Some("{\"id\":42}"));
    SingleRuleMap(rule);
    assert Maps(hostMap, entry, 4000);
    var ep := Endpoint("GET", "users/42", 200, v);
    assert EndpointOf(entry, hostMap[entry.origin], parse) == ep by {
      PrefixStripWithoutBoundary();
      assert BodyOf(entry.text, parse) == v;
    }
    SingleEntryGroups(entry, hostMap, parse, 4000, ep);
  }

  /** A one-rule configuration maps the rule's url to its entry and nothing else. */
  lemma SingleRuleMap(rule: HostRule)
    ensures BuildHostMap([rule]) == map[rule.url := EntryOf(rule)]
  {
    assert [rule][..0] == [];
  }

  /** A one-entry archive whose entry maps to `port` gives one group on `port` holding its endpoint. */
  lemma SingleEntryGroups(entry: HarEntry, hostMap: map<string, HostEntry>, parse: Parser, port: int, ep: Endpoint)
    requires Maps(hostMap, entry, port) && EndpointOf(entry, hostMap[entry.origin], parse) == ep
    ensures Groups([entry], hostMap, parse) == [PortGroup(port, [ep])]
  {
    assert [entry][..0] == [];
    assert FirstSeen([entry], hostMap) == [port];
    if IsArrayIndex(port) {
      assert IndexKeys([port]) == [port];
      assert OtherKeys([port]) == [];
      assert Sort([port]) == [port];
    } else {
      assert IndexKeys([port]) == [];
      assert OtherKeys([port]) == [port];
    }
    assert OwnKeys([port]) == [port];
    assert Bucket([entry], hostMap, parse, port) == [ep];
  }
}
