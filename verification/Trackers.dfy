/** The list of tracker servers: storage_func.c keeps it sorted by address and port, without
    duplicates, in the array it was allocated. */
module Trackers {
  import opened CStrings
  import opened Numbers
  import opened Sorting
  import opened Store
  import Ini

  const HOST_SIZE := 128
  const DEFAULT_PORT := 22000
  const MAX_TRACKERS := 16
  const LOCALHOST := "127.0.0.1"

  /** Ports in the list are positive: copy_tracker_servers replaces any other. */
  type Port = p: int32 | 0 < p witness 1

  datatype Server = Server(ipAddr: string, port: Port)

  /** storage_cmp_by_ip_and_port, with the difference of the ports taken in 32 bits. */
  function CmpByIpAndPort(p1: Server, p2: Server): int {
    var res := Strcmp(p1.ipAddr, p2.ipAddr);
    if res != 0 then res else Wrap32(p1.port - p2.port)
  }

  /** The difference of two ports is exact when it fits 32 bits, and for positive ports it does. */
  lemma PortDifference(p: int32, q: int32)
    ensures Wrap32(p - q) == p - q <==> -0x8000_0000 <= p - q <= 0x7FFF_FFFF
    ensures 0 < p && 0 < q ==> Wrap32(p - q) == p - q
  {
  }

  /** The comparison is a total order: equal only for equal servers. */
  lemma ServerOrder()
    ensures TotalPreorder(CmpByIpAndPort)
    ensures forall x, y :: CmpByIpAndPort(x, y) == 0 <==> x == y
  {
    hide Wrap32;
    forall x: Server, y: Server
      ensures CmpByIpAndPort(x, y) < 0 <==> CmpByIpAndPort(y, x) > 0
      ensures CmpByIpAndPort(x, y) == 0 <==> x == y
    {
      CmpSymmetric(x, y);
    }
    forall x: Server, y: Server, z: Server | CmpByIpAndPort(x, y) <= 0 && CmpByIpAndPort(y, z) <= 0
      ensures CmpByIpAndPort(x, z) <= 0
    {
      CmpTransitive(x, y, z);
    }
  }

  lemma CmpSymmetric(x: Server, y: Server)
    ensures CmpByIpAndPort(x, y) < 0 <==> CmpByIpAndPort(y, x) > 0
    ensures CmpByIpAndPort(x, y) == 0 <==> x == y
  {
    hide Wrap32, Strcmp;
    PortDifference(x.port, y.port);
    PortDifference(y.port, x.port);
    StrcmpAntisymmetric(x.ipAddr, y.ipAddr);
    StrcmpAntisymmetric(y.ipAddr, x.ipAddr);
    StrcmpZero(x.ipAddr, y.ipAddr);
    StrcmpZero(y.ipAddr, x.ipAddr);
  }

  lemma CmpTransitive(x: Server, y: Server, z: Server)
    requires CmpByIpAndPort(x, y) <= 0 && CmpByIpAndPort(y, z) <= 0
    ensures CmpByIpAndPort(x, z) <= 0
  {
    hide Wrap32, Strcmp;
    PortDifference(x.port, y.port);
    PortDifference(y.port, z.port);
    PortDifference(x.port, z.port);
    StrcmpTransitive(x.ipAddr, y.ipAddr, z.ipAddr);
    StrcmpZero(x.ipAddr, y.ipAddr);
    StrcmpZero(y.ipAddr, z.ipAddr);
    StrcmpZero(x.ipAddr, z.ipAddr);
    if Strcmp(x.ipAddr, z.ipAddr) == 0 {
      StrcmpAntisymmetric(x.ipAddr, y.ipAddr);
      StrcmpAntisymmetric(y.ipAddr, x.ipAddr);
    }
  }

  ghost predicate StrictlySorted(s: seq<Server>) {
    forall i, j | 0 <= i < j < |s| :: CmpByIpAndPort(s[i], s[j]) < 0
  }

  /** By address in dictionary order, and by port where the addresses are equal. */
  ghost predicate ServerBefore(p1: Server, p2: Server) {
    Before(p1.ipAddr, p2.ipAddr) || (p1.ipAddr == p2.ipAddr && p1.port < p2.port)
  }

  /** Each server comes before every later one. */
  ghost predicate InOrder(s: seq<Server>) { forall i, j | 0 <= i < j < |s| :: ServerBefore(s[i], s[j]) }

  lemma CmpIsOrder(p1: Server, p2: Server)
    ensures CmpByIpAndPort(p1, p2) < 0 <==> ServerBefore(p1, p2)
  {
    hide Strcmp, Before, Wrap32;
    StrcmpIsOrder(p1.ipAddr, p2.ipAddr);
    PortDifference(p1.port, p2.port);
  }

  lemma StrictIsInOrder(s: seq<Server>)
    ensures StrictlySorted(s) <==> InOrder(s)
  {
    hide CmpByIpAndPort, ServerBefore;
    forall i, j | 0 <= i < j < |s| ensures CmpByIpAndPort(s[i], s[j]) < 0 <==> ServerBefore(s[i], s[j]) {
      CmpIsOrder(s[i], s[j]);
    }
  }

  function SetOf(s: seq<Server>): set<Server> { set x | x in s }

  lemma StrictIsSorted(s: seq<Server>)
    requires StrictlySorted(s)
    ensures Sorted(s, CmpByIpAndPort)
  {
  }

  /** A strictly sorted list is determined by the servers in it: so the list does not depend on the
      order in which the configuration, or an unstable sort of it, gave the entries. */
  lemma {:induction false} SortedListIsUnique(a: seq<Server>, b: seq<Server>)
    requires StrictlySorted(a) && StrictlySorted(b) && SetOf(a) == SetOf(b)
    ensures a == b
    decreases |a|
  {
    hide CmpByIpAndPort;
    ServerOrder();
    assert b != [] ==> b[0] in SetOf(b);
    if a != [] {
      assert a[0] in SetOf(b);
      assert b[0] in SetOf(a);
      var i :| 0 <= i < |b| && b[i] == a[0];
      var j :| 0 <= j < |a| && a[j] == b[0];
      assert a[0] == b[0];
      assert SetOf(a[1..]) == SetOf(b[1..]) by {
        RestOf(a);
        RestOf(b);
      }
      SortedListIsUnique(a[1..], b[1..]);
    }
  }

  lemma RestOf(s: seq<Server>)
    requires s != [] && StrictlySorted(s)
    ensures SetOf(s[1..]) == SetOf(s) - {s[0]} && StrictlySorted(s[1..])
  {
    hide CmpByIpAndPort;
    ServerOrder();
    forall x ensures x in SetOf(s[1..]) <==> x in SetOf(s) - {s[0]} {
      if x in SetOf(s) - {s[0]} {
        var k :| 0 <= k < |s| && s[k] == x;
        assert s[1..][k - 1] == x;
      }
    }
  }

  // ------------------------------------------------------------ entries

  /** What a "host:port" entry stands for, if it is valid and its host resolves. */
  function ServerOf(entry: string, resolve: string -> Option<string>): Option<Server> {
    var separator := IndexOf(entry, ':');
    if separator == |entry| then None
    else
      var ip := resolve(Cut(entry[..separator], HOST_SIZE - 1));
      if ip.None? || ip.value == LOCALHOST then None
      else
        var port := Atoi(entry[separator + 1..]);
        Some(Server(ip.value, if port <= 0 then DEFAULT_PORT else port))
  }

  /** What an entry says: the host up to the first colon, at most 127 chars of it, and the port after it,
      or 22000 when that reads as zero or less.  It is refused exactly when the host does not resolve,
      or resolves to this machine. */
  lemma EntrySays(host: string, text: string, resolve: string -> Option<string>)
    requires Free(host, ':')
    ensures var ip := resolve(Cut(host, 127));
            ServerOf(host + ":" + text, resolve) ==
              if ip.None? || ip.value == "127.0.0.1" then None
              else Some(Server(ip.value, if Atoi(text) <= 0 then 22000 else Atoi(text)))
  {
    hide Atoi, Cut;
    var entry := host + ":" + text;
    assert entry[..|host|] == host && entry[|host| + 1..] == text;
    IndexOfUnique(entry, ':', |host|);
  }

  /** Without a colon it is refused, and every other entry has that form. */
  lemma EntryForm(entry: string, resolve: string -> Option<string>) returns (host: string, text: string)
    ensures Free(entry, ':') ==> ServerOf(entry, resolve).None?
    ensures !Free(entry, ':') ==> entry == host + ":" + text && Free(host, ':')
  {
    var i := IndexOf(entry, ':');
    IndexOfFirst(entry, ':');
    assert entry[..|entry|] == entry;
    host, text := entry[..i], if i < |entry| then entry[i + 1..] else "";
  }

  /** An entry as it is meant to be written gives the server it names. */
  lemma HostAndPort(host: string, port: Port, ip: string, resolve: string -> Option<string>)
    requires Free(host, ':') && |host| <= 127 && resolve(host) == Some(ip) && ip != "127.0.0.1"
    ensures ServerOf(host + ":" + PrintDec(port), resolve) == Some(Server(ip, port))
  {
    hide Atoi, PrintDec, ServerOf;
    EntrySays(host, PrintDec(port), resolve);
    AtoiOfPrintDec(port);
  }

  function ServersOf(entries: seq<string>, resolve: string -> Option<string>): set<Server> {
    set e | e in entries && ServerOf(e, resolve).Some? :: ServerOf(e, resolve).value
  }

  predicate AllValid(entries: seq<string>, resolve: string -> Option<string>) {
    forall e | e in entries :: ServerOf(e, resolve).Some?
  }

  /** A list of such entries is valid, and stands for exactly the servers they name. */
  lemma HostsAndPorts(hosts: seq<string>, ports: seq<Port>, ips: seq<string>, entries: seq<string>, resolve: string -> Option<string>)
    requires |hosts| == |ports| == |ips| == |entries|
    requires forall k | 0 <= k < |hosts| ::
               && Free(hosts[k], ':') && |hosts[k]| <= 127 && resolve(hosts[k]) == Some(ips[k]) && ips[k] != "127.0.0.1"
               && entries[k] == hosts[k] + ":" + PrintDec(ports[k])
    ensures AllValid(entries, resolve)
    ensures ServersOf(entries, resolve) == set k | 0 <= k < |hosts| :: Server(ips[k], ports[k])
  {
    hide ServerOf, PrintDec, Free;
    forall k | 0 <= k < |entries| ensures ServerOf(entries[k], resolve) == Some(Server(ips[k], ports[k])) {
      HostAndPort(hosts[k], ports[k], ips[k], resolve);
    }
    forall x ensures x in ServersOf(entries, resolve) <==> x in set k | 0 <= k < |hosts| :: Server(ips[k], ports[k]) {
      if x in set k | 0 <= k < |hosts| :: Server(ips[k], ports[k]) {
        var k :| 0 <= k < |hosts| && x == Server(ips[k], ports[k]);
        assert entries[k] in entries;
      }
    }
  }

  lemma NoEntries(resolve: string -> Option<string>)
    ensures AllValid([], resolve) && ServersOf([], resolve) == SetOf([])
  {
  }

  lemma EntriesSnoc(entries: seq<string>, k: nat, resolve: string -> Option<string>)
    requires k < |entries|
    ensures AllValid(entries[..k + 1], resolve) <==> AllValid(entries[..k], resolve) && ServerOf(entries[k], resolve).Some?
    ensures ServerOf(entries[k], resolve).Some? ==>
              ServersOf(entries[..k + 1], resolve) == ServersOf(entries[..k], resolve) + {ServerOf(entries[k], resolve).value}
    ensures ServerOf(entries[k], resolve).None? ==> !AllValid(entries, resolve)
  {
    hide ServerOf;
    assert entries[..k + 1] == entries[..k] + [entries[k]];
    assert entries[k] in entries;
  }

  // ------------------------------------------------------------ the list

  /** x is put where it belongs in s. */
  ghost predicate InsertedAt(s: seq<Server>, x: Server, k: nat, t: seq<Server>) {
    && k <= |s| && t == s[..k] + [x] + s[k..]
    && (0 < k ==> CmpByIpAndPort(x, s[k - 1]) > 0)
    && (k < |s| ==> CmpByIpAndPort(x, s[k]) <= 0)
  }

  lemma InsertionKeepsOrder(s: seq<Server>, x: Server, k: nat, t: seq<Server>)
    requires StrictlySorted(s) && x !in s && InsertedAt(s, x, k, t)
    ensures StrictlySorted(t)
  {
    hide CmpByIpAndPort;
    ServerOrder();
    assert k < |s| ==> s[k] in s;
    forall i, j | 0 <= i < j < |t| ensures CmpByIpAndPort(t[i], t[j]) < 0 {
      if i < k && j == k {
        assert i == k - 1 || CmpByIpAndPort(s[i], s[k - 1]) < 0;
        assert Chain(s[i], s[k - 1], x);
      } else if i == k {
        assert j == k + 1 || CmpByIpAndPort(s[k], s[j - 1]) < 0;
        assert Chain(x, s[k], t[j]);
      } else {
        assert CmpByIpAndPort(s[if i < k then i else i - 1], s[if j < k then j else j - 1]) < 0;
      }
    }
  }

  lemma InsertionAdds(s: seq<Server>, x: Server, k: nat)
    requires k <= |s|
    ensures SetOf(s[..k] + [x] + s[k..]) == SetOf(s) + {x}
  {
    assert s == s[..k] + s[k..];
  }

  ghost predicate Inserted(s: seq<Server>, x: Server, t: seq<Server>) { exists k :: InsertedAt(s, x, k, t) }

  lemma InsertedKeepsList(s: seq<Server>, x: Server, t: seq<Server>)
    requires StrictlySorted(s) && x !in s && Inserted(s, x, t)
    ensures StrictlySorted(t) && SetOf(t) == SetOf(s) + {x}
  {
    hide StrictlySorted, SetOf;
    var k :| InsertedAt(s, x, k, t);
    InsertionKeepsOrder(s, x, k, t);
    InsertionAdds(s, x, k);
  }

  /** The servers from dest on have moved up by one. */
  ghost predicate Shifting(was: seq<Server>, b: seq<Server>, dest: nat) {
    && dest <= |was| < |b|
    && (forall i | 0 <= i < dest :: b[i] == was[i])
    && (forall i | dest < i <= |was| :: b[i] == was[i - 1])
  }

  lemma StartShift(b: seq<Server>, n: nat)
    requires n < |b|
    ensures Shifting(b[..n], b, n)
  {
  }

  lemma ShiftOne(was: seq<Server>, b: seq<Server>, dest: nat)
    requires Shifting(was, b, dest) && 0 < dest
    ensures dest < |b| && b[dest - 1] == was[dest - 1]
    ensures Shifting(was, b[dest := b[dest - 1]], dest - 1)
  {
  }

  lemma EndShift(was: seq<Server>, b: seq<Server>, dest: nat, x: Server)
    requires Shifting(was, b, dest)
    requires 0 < dest ==> CmpByIpAndPort(x, was[dest - 1]) > 0
    requires dest < |was| ==> CmpByIpAndPort(x, was[dest]) <= 0
    ensures dest < |b| && |was| < |b| && Inserted(was, x, b[dest := x][..|was| + 1])
  {
    var t := b[dest := x][..|was| + 1];
    assert t == was[..dest] + [x] + was[dest..];
    assert InsertedAt(was, x, dest, t);
  }

  class TrackerList {
    var servers: array<Server>
    var count: nat

    ghost predicate Valid()
      reads this, servers
    {
      count <= servers.Length && StrictlySorted(servers[..count])
    }

    ghost function Contents(): set<Server>
      reads this, servers
      requires Valid()
    {
      SetOf(servers[..count])
    }

    constructor (n: nat)
      ensures Valid() && fresh(servers) && servers.Length == n && count == 0
    {
      servers := new Server[n](_ => Server("", 1));
      count := 0;
    }

    /** insert_into_sorted_servers: the caller counts the new server. */
    method InsertIntoSortedServers(inserted: Server)
      requires Valid() && count < servers.Length
      modifies servers
      ensures Inserted(old(servers[..count]), inserted, servers[..count + 1])
      ensures forall i | count < i < servers.Length :: servers[i] == old(servers[i])
    {
      hide CmpByIpAndPort, StrictlySorted, Shifting, Inserted;
      ghost var was := servers[..count];
      StartShift(servers[..], count);
      var dest := count;
      while dest > 0
        invariant 0 <= dest <= count
        invariant Shifting(was, servers[..], dest)
        invariant dest < count ==> CmpByIpAndPort(inserted, was[dest]) <= 0
        invariant forall i | count < i < servers.Length :: servers[i] == old(servers[i])
      {
        ShiftOne(was, servers[..], dest);
        if CmpByIpAndPort(inserted, servers[dest - 1]) > 0 {
          break;
        }
        servers[dest] := servers[dest - 1];
        dest := dest - 1;
      }
      EndShift(was, servers[..], dest, inserted);
      servers[dest] := inserted;
      assert servers[..count + 1] == servers[..][..count + 1];
    }

    /** copy_tracker_servers. */
    method CopyTrackerServers(entries: seq<string>, resolve: string -> Option<string>) returns (result: int)
      requires servers.Length == |entries|
      modifies this`count, servers
      ensures Valid() && InOrder(servers[..count])
      ensures result == 0 <==> AllValid(entries, resolve)
      ensures result == 0 || result == EINVAL
      ensures result == 0 ==> Contents() == ServersOf(entries, resolve)
      ensures count <= |entries|
    {
      hide ServerOf, ServersOf, AllValid, SetOf, InOrder, CmpByIpAndPort;
      count := 0;
      NoEntries(resolve);
      assert entries[..0] == [] && servers[..0] == [];
      for k := 0 to |entries|
        invariant Valid() && count <= k
        invariant AllValid(entries[..k], resolve)
        invariant Contents() == ServersOf(entries[..k], resolve)
      {
        EntriesSnoc(entries, k, resolve);
        var server := ReadEntry(entries[k], resolve);
        if server.None? {
          StrictIsInOrder(servers[..count]);
          return EINVAL;
        }
        AddIfNew(server.value);
      }
      assert entries[..|entries|] == entries;
      StrictIsInOrder(servers[..count]);
      result := 0;
    }

    method Copy() returns (s: seq<Server>)
      requires Valid()
      ensures StrictlySorted(s) && SetOf(s) == Contents() && |s| == count
    {
      s := servers[..count];
    }

    method AddIfNew(server: Server)
      requires Valid() && count < servers.Length
      modifies this`count, servers
      ensures Valid() && Contents() == old(Contents()) + {server}
      ensures count <= old(count) + 1
    {
      hide StrictlySorted, Inserted, SetOf;
      ghost var was := servers[..count];
      var found := Search(server, servers[..count]);
      if found < 0 {
        InsertIntoSortedServers(server);
        InsertedKeepsList(was, server, servers[..count + 1]);
        count := count + 1;
      } else {
        AlreadyThere(was, server);
      }
    }
  }

  method Search(server: Server, servers: seq<Server>) returns (found: int)
    requires StrictlySorted(servers)
    ensures found < 0 <==> server !in servers
  {
    hide CmpByIpAndPort;
    StrictIsSorted(servers);
    ServerOrder();
    found := Bsearch(server, servers, CmpByIpAndPort);
    if 0 <= found {
      assert servers[found] == server;
    }
  }

  lemma AlreadyThere(s: seq<Server>, x: Server)
    requires x in s
    ensures SetOf(s) == SetOf(s) + {x}
  {
  }

  /** The part of copy_tracker_servers that reads one entry. */
  method ReadEntry(entry: string, resolve: string -> Option<string>) returns (server: Option<Server>)
    ensures server == ServerOf(entry, resolve)
  {
    hide Atoi, IndexOf;
    var separator := IndexOf(entry, ':');
    if separator == |entry| {
      return None;
    }
    var hostLen := separator;
    if hostLen >= HOST_SIZE {
      hostLen := HOST_SIZE - 1;
    }
    Ini.CutIs(entry[..separator], HOST_SIZE - 1, hostLen);
    assert entry[..separator][..hostLen] == entry[..hostLen];
    hide Cut;
    var ipAddr := resolve(entry[..hostLen]);
    if ipAddr.None? || ipAddr.value == LOCALHOST {
      return None;
    }
    var port := Atoi(entry[separator + 1..]);
    if port <= 0 {
      port := DEFAULT_PORT;
    }
    server := Some(Server(ipAddr.value, port));
  }

  lemma SameEntries(a: seq<string>, b: seq<string>, resolve: string -> Option<string>)
    requires multiset(a) == multiset(b)
    ensures AllValid(a, resolve) <==> AllValid(b, resolve)
    ensures ServersOf(a, resolve) == ServersOf(b, resolve)
  {
    hide ServerOf;
    PermutationHasSameElements(a, b);
  }

  lemma FewerEntries(a: seq<string>, n: nat, resolve: string -> Option<string>)
    requires n <= |a|
    ensures ServersOf(a[..n], resolve) <= ServersOf(a, resolve)
  {
    hide ServerOf;
  }

  const ITEM_TRACKER_SERVER := "tracker_server"

  /** What a configuration says the trackers are. */
  function Configured(content: string): seq<string> { Ini.Matching(Ini.Loaded(content), ITEM_TRACKER_SERVER) }

  /** The part of storage_load_from_conf_file that builds the list from the configuration file.  Up to 16
      entries, the list is fully determined: bsearch and qsort leave open in which order the
      entries come, but the list does not depend on it. */
  method LoadTrackerServers(content: string, resolve: string -> Option<string>) returns (result: int, servers: seq<Server>)
    ensures Configured(content) == Ini.Matching(Ini.Loaded(content), "tracker_server")
    ensures Configured(content) == [] ==> result == ENOENT
    ensures Configured(content) != [] ==> result == 0 || result == EINVAL
    ensures 0 < |Configured(content)| <= 16 ==> (result == 0 <==> AllValid(Configured(content), resolve))
    ensures result == 0 ==> StrictlySorted(servers) && InOrder(servers) && |servers| <= 16
    ensures result == 0 ==> SetOf(servers) <= ServersOf(Configured(content), resolve)
    ensures result == 0 && |Configured(content)| <= 16 ==> SetOf(servers) == ServersOf(Configured(content), resolve)
  {
    ItemName();
    var items, count := Ini.LoadItems(content);
    assert count <= items.Length;
    hide *;
    var entries, all := Ini.GetValues(ITEM_TRACKER_SERVER, items[..count], 16);
    EntriesFound(items[..count], content, entries, all, resolve);
    if |entries| <= 0 {
      return ENOENT, [];
    }
    var list := new TrackerList(|entries|);
    result := list.CopyTrackerServers(entries, resolve);
    servers := [];
    if result == 0 {
      servers := list.Copy();
      StrictIsInOrder(servers);
    }
  }

  lemma ItemName()
    ensures Free(ITEM_TRACKER_SERVER, NUL) && |ITEM_TRACKER_SERVER| <= Ini.NAME_LEN
  {
  }

  /** What the entries found have to do with the configuration. */
  lemma EntriesFound(slots: seq<Ini.Slot>, content: string, entries: seq<string>, all: seq<string>, resolve: string -> Option<string>)
    requires multiset(Ini.ItemsIn(slots)) == multiset(Ini.Loaded(content))
    requires Ini.Answers(slots, ITEM_TRACKER_SERVER, entries, all, MAX_TRACKERS)
    ensures |entries| <= MAX_TRACKERS && (entries == [] <==> Configured(content) == [])
    ensures ServersOf(entries, resolve) <= ServersOf(Configured(content), resolve)
    ensures |Configured(content)| <= MAX_TRACKERS ==>
              && (AllValid(entries, resolve) <==> AllValid(Configured(content), resolve))
              && ServersOf(entries, resolve) == ServersOf(Configured(content), resolve)
  {
    ItemName();
    hide Configured, ServersOf, AllValid, Ini.ItemsIn, Ini.Matching, Ini.Loaded, ITEM_TRACKER_SERVER;
    ConfiguredIn(slots, content);
    PermutationHasSameElements(all, Configured(content));
    SameEntries(all, Configured(content), resolve);
    FewerEntries(all, |entries|, resolve);
    assert all[..|all|] == all;
  }

  lemma ConfiguredIn(slots: seq<Ini.Slot>, content: string)
    requires multiset(Ini.ItemsIn(slots)) == multiset(Ini.Loaded(content))
    ensures multiset(Ini.Matching(Ini.ItemsIn(slots), ITEM_TRACKER_SERVER)) == multiset(Configured(content))
  {
    Ini.MatchingPermutation(Ini.ItemsIn(slots), Ini.Loaded(content), ITEM_TRACKER_SERVER);
  }
}
