/** The pure helpers of `zk-latencies.py`: znode path naming and the check
    of the paths asynchronous creates report back, the `key=value` reader
    for a ZooKeeper configuration file, and the choice of the server list. */
module ZkConfig {
  import opened Outcomes
  import opened Text
  import opened Decimal

  // ----- znode paths -----

  const SESSION: string := "/session_"

  /** `child_path(i)`: the `i`-th znode under the test root. */
  function ChildPath(root: string, i: int): (p: string)
    ensures |root| + |SESSION| < |p| && p[..|root| + 1] == root + "/"
  {
    var p := root + SESSION + IntToString(i);
    assert p[..|root| + 1] == root + [SESSION[0]];
    p
  }

  /** Distinct indices name distinct znodes under the same root. */
  lemma ChildPathInjective(root: string, i: int, j: int)
    requires ChildPath(root, i) == ChildPath(root, j)
    ensures i == j
  {
    var n := |root + SESSION|;
    assert ChildPath(root, i)[n..] == IntToString(i);
    assert ChildPath(root, j)[n..] == IntToString(j);
    IntToStringInjective(i, j);
  }

  /** The loop after an asynchronous batch: the path reported for operation
      `j` must be `child_path(j)`; the first that is not raises the
      "invalid path" SmokeError for `j`. */
  function CheckPaths(root: string, paths: seq<string>, from: nat): Result<()>
    decreases |paths| - from
  {
    if from >= |paths| then Ok(())
    else if paths[from] != ChildPath(root, from) then Err(InvalidPath(from))
    else CheckPaths(root, paths, from + 1)
  }

  /** The batch passes exactly when every reported path is the one asked
      for. */
  lemma {:induction false} CheckPathsOk(root: string, paths: seq<string>, from: nat)
    ensures CheckPaths(root, paths, from).Ok? <==>
              forall j :: from <= j < |paths| ==> paths[j] == ChildPath(root, j)
    decreases |paths| - from
  {
    if from < |paths| {
      CheckPathsOk(root, paths, from + 1);
      assert CheckPaths(root, paths, from).Ok? <==>
               paths[from] == ChildPath(root, from) && CheckPaths(root, paths, from + 1).Ok?;
      assert (forall j :: from <= j < |paths| ==> paths[j] == ChildPath(root, j)) <==>
               && paths[from] == ChildPath(root, from)
               && forall j :: from + 1 <= j < |paths| ==> paths[j] == ChildPath(root, j);
    }
  }

  /** A failing batch fails at the first operation whose reported path is
      not the one asked for. */
  lemma {:induction false} CheckPathsFirstMismatch(root: string, paths: seq<string>, from: nat)
    requires CheckPaths(root, paths, from).Err?
    ensures exists j :: && from <= j < |paths|
                        && CheckPaths(root, paths, from) == Err(InvalidPath(j))
                        && paths[j] != ChildPath(root, j)
                        && forall i :: from <= i < j ==> paths[i] == ChildPath(root, i)
    decreases |paths| - from
  {
    if paths[from] == ChildPath(root, from) {
      CheckPathsFirstMismatch(root, paths, from + 1);
      var j :| && from + 1 <= j < |paths|
               && CheckPaths(root, paths, from + 1) == Err(InvalidPath(j))
               && paths[j] != ChildPath(root, j)
               && forall i :: from + 1 <= i < j ==> paths[i] == ChildPath(root, i);
      assert forall i :: from <= i < j ==> paths[i] == ChildPath(root, i);
    } else {
      assert CheckPaths(root, paths, from) == Err(InvalidPath(from));
    }
  }

  // ----- read_zk_config -----

  /** What `dict` receives for one line: nothing for a line that is blank
      after right-stripping, otherwise the pieces of `split('=', 1)` (one
      piece when there is no '='). */
  function ConfigPieces(line: string): Option<seq<string>> {
    var t := RStrip(line);
    if |t| == 0 then None else Some(SplitOnce(t, '='))
  }

  /** A non-blank line without '=': `dict` rejects its one-element tuple. */
  predicate Malformed(line: string) {
    |RStrip(line)| > 0 && '=' !in RStrip(line)
  }

  /** The key and value a line contributes, if any. */
  function Entry(line: string): (e: Option<(string, string)>)
    ensures e.Some? ==> '=' !in e.value.0 && e.value.0 + "=" + e.value.1 == RStrip(line)
  {
    match ConfigPieces(line)
    case None => None
    case Some(kv) => if |kv| == 2 then Some((kv[0], kv[1])) else None
  }

  /** A line contributes an entry exactly when it is neither blank nor
      malformed; the key keeps any leading whitespace and the value may
      itself contain '='. */
  lemma EntryCases(line: string)
    ensures Entry(line).Some? <==> |RStrip(line)| > 0 && !Malformed(line)
    ensures Entry(line).Some? ==> Entry(line).value.0 + "=" + Entry(line).value.1 <= line
  {
    if Entry(line).Some? {
      var e := Entry(line).value;
      assert e.0 + "=" + e.1 == RStrip(line);
    }
  }

  /** `dict(...)` over the lines of the file, the later line winning. */
  function ConfigOf(lines: seq<string>): Result<map<string, string>>
    decreases |lines|
  {
    if |lines| == 0 then Ok(map[])
    else
      var init :- ConfigOf(lines[..|lines| - 1]);
      var last := lines[|lines| - 1];
      if Malformed(last) then Err(ValueError)
      else match Entry(last)
        case None => Ok(init)
        case Some(kv) => Ok(init[kv.0 := kv.1])
  }

  /** `read_zk_config(filename)`. */
  function ReadZkConfig(fs: FileSystem, filename: string): (r: Result<map<string, string>>)
    ensures filename !in fs ==> r == Err(IOError(filename))
    ensures filename in fs ==> r == ConfigOf(fs[filename])
  {
    var lines :- ReadLines(fs, filename);
    ConfigOf(lines)
  }

  /** The entries of a whole file, line by line. */
  function Entries(lines: seq<string>): (es: seq<Option<(string, string)>>)
    ensures |es| == |lines|
    ensures forall i :: 0 <= i < |lines| ==> es[i] == Entry(lines[i])
  {
    seq(|lines|, i requires 0 <= i < |lines| => Entry(lines[i]))
  }

  /** The dictionary the entries build, a later entry replacing an earlier
      one with the same key. */
  function Fold(es: seq<Option<(string, string)>>): map<string, string>
    decreases |es|
  {
    if |es| == 0 then map[]
    else
      var init := Fold(es[..|es| - 1]);
      match es[|es| - 1]
      case None => init
      case Some(kv) => init[kv.0 := kv.1]
  }

  /** A file that reads builds the dictionary of its entries. */
  lemma {:induction false} ConfigOfFold(lines: seq<string>)
    requires ConfigOf(lines).Ok?
    ensures ConfigOf(lines).value == Fold(Entries(lines))
    decreases |lines|
  {
    if |lines| > 0 {
      var init := lines[..|lines| - 1];
      ConfigOfFold(init);
      assert Entries(lines)[..|lines| - 1] == Entries(init);
    }
  }

  predicate Defines(e: Option<(string, string)>, key: string) {
    e.Some? && e.value.0 == key
  }

  lemma {:induction false} FoldLastWins(es: seq<Option<(string, string)>>, key: string)
    ensures key in Fold(es) <==> exists i :: 0 <= i < |es| && Defines(es[i], key)
    ensures key in Fold(es) ==>
              exists i :: && 0 <= i < |es| && Defines(es[i], key)
                          && Fold(es)[key] == es[i].value.1
                          && forall j :: i < j < |es| ==> !Defines(es[j], key)
    decreases |es|
  {
    if |es| > 0 {
      var n := |es| - 1;
      var init := es[..n];
      FoldLastWins(init, key);
      assert forall i :: 0 <= i < n ==> init[i] == es[i];
      if !Defines(es[n], key) && key in Fold(init) {
        var i :| && 0 <= i < |init| && Defines(init[i], key)
                 && Fold(init)[key] == init[i].value.1
                 && forall j :: i < j < |init| ==> !Defines(init[j], key);
        assert forall j :: i < j < |es| ==> !Defines(es[j], key);
      }
    }
  }

  /** The file reads exactly when no line is malformed; otherwise the read
      is Python's ValueError. */
  lemma {:induction false} ConfigOk(lines: seq<string>)
    ensures ConfigOf(lines).Ok? <==> forall i :: 0 <= i < |lines| ==> !Malformed(lines[i])
    ensures ConfigOf(lines).Err? ==> ConfigOf(lines).error == ValueError
    decreases |lines|
  {
    if |lines| > 0 {
      var init := lines[..|lines| - 1];
      ConfigOk(init);
      ConfigOfStep(lines);
      assert forall i :: 0 <= i < |init| ==> init[i] == lines[i];
    }
  }

  /** One more line: the read fails when the earlier lines fail or the new
      line is malformed, with the earlier error or ValueError. */
  lemma ConfigOfStep(lines: seq<string>)
    requires |lines| > 0
    ensures ConfigOf(lines).Ok? <==> ConfigOf(lines[..|lines| - 1]).Ok? && !Malformed(lines[|lines| - 1])
    ensures ConfigOf(lines).Err? ==>
              ConfigOf(lines) == ConfigOf(lines[..|lines| - 1]) || ConfigOf(lines) == Err(ValueError)
  {
  }

  /** A key is in the configuration exactly when some line defines it, and
      its value is the one from the LAST such line. */
  lemma ConfigLastWins(lines: seq<string>, key: string)
    requires ConfigOf(lines).Ok?
    ensures key in ConfigOf(lines).value <==> exists i :: 0 <= i < |lines| && Defines(Entry(lines[i]), key)
    ensures key in ConfigOf(lines).value ==>
              exists i :: && 0 <= i < |lines| && Defines(Entry(lines[i]), key)
                          && ConfigOf(lines).value[key] == Entry(lines[i]).value.1
                          && forall j :: i < j < |lines| ==> !Defines(Entry(lines[j]), key)
  {
    ConfigOfFold(lines);
    FoldLastWins(Entries(lines), key);
  }

  // ----- get_zk_servers -----

  /** The options `get_zk_servers` consults. */
  datatype Options = Options(cluster: Option<string>, configfile: Option<string>, servers: string)

  /** Python truthiness of an optional string: set and non-empty. */
  predicate Truthy(o: Option<string>) {
    o.Some? && |o.value| > 0
  }

  const CLIENT_PORT: string := "clientPort"
  const SERVER_PREFIX: string := "server."

  predicate IsServerKey(key: string) {
    |key| >= |SERVER_PREFIX| && key[..|SERVER_PREFIX|] == SERVER_PREFIX
  }

  /** `"%s:%s" % (v.split(':', 1)[0], client_port)`: the host part of a
      `server.N` value with the client port. */
  function ServerEntry(value: string, port: string): (e: string)
    ensures |port| < |e|
    ensures ':' !in e[..|e| - |port| - 1] && e[..|e| - |port| - 1] <= value
    ensures e[|e| - |port| - 1..] == ":" + port
    ensures var h := e[..|e| - |port| - 1]; h == value || (|h| < |value| && value[|h|] == ':')
  {
    var host := SplitOnce(value, ':')[0];
    assert host <= value;
    var e := host + ":" + port;
    assert e[..|e| - |port| - 1] == host;
    e
  }

  /** `order` is an iteration order of `config`: every key exactly once. */
  predicate IsOrderOf(order: seq<string>, config: map<string, string>) {
    && (forall k :: k in order ==> k in config)
    && (forall k :: k in config ==> k in order)
    && (forall i, j :: 0 <= i < j < |order| ==> order[i] != order[j])
  }

  /** The `server.*` keys of a configuration. */
  function ServerKeys(config: map<string, string>): set<string> {
    set k | k in config && IsServerKey(k)
  }

  /** `order` lists the keys of the configuration file whenever that file
      reads. */
  predicate OrderFits(opts: Options, fs: FileSystem, order: seq<string>) {
    opts.configfile.Some? && opts.configfile.value in fs && ConfigOf(fs[opts.configfile.value]).Ok? ==>
      IsOrderOf(order, ConfigOf(fs[opts.configfile.value]).value)
  }

  /** The generator over `config.items()`, with the dictionary's iteration
      order given as `order`. */
  function ServerEntries(config: map<string, string>, port: string, order: seq<string>): seq<string>
    decreases |order|
  {
    if |order| == 0 then []
    else
      var k := order[0];
      (if k in config && IsServerKey(k) then [ServerEntry(config[k], port)] else [])
        + ServerEntries(config, port, order[1..])
  }

  /** `get_zk_servers(filename)`. `filename` is only tested for truthiness:
      the file read is the `configfile` option. `order` is the iteration
      order of the configuration dictionary. */
  function GetZkServers(opts: Options, filename: Option<string>, fs: FileSystem, order: seq<string>): Result<seq<string>>
    requires OrderFits(opts, fs, order)
  {
    if Truthy(opts.cluster) then Ok([opts.cluster.value])
    else if Truthy(filename) then
      if opts.configfile.None? then Err(TypeError)
      else
        var config :- ReadZkConfig(fs, opts.configfile.value);
        if CLIENT_PORT !in config then Err(KeyError(CLIENT_PORT))
        else Ok([Join(ServerEntries(config, config[CLIENT_PORT], order), ',')])
    else Ok(Split(opts.servers, ','))
  }

  /** The order of precedence: a cluster wins over a configuration file,
      which wins over the server list; in the configuration case the result
      is a single string, or an error for a missing `configfile` option, an
      unreadable file or a missing `clientPort` key. */
  lemma GetZkServersPrecedence(opts: Options, filename: Option<string>, fs: FileSystem, order: seq<string>)
    requires OrderFits(opts, fs, order)
    ensures Truthy(opts.cluster) ==> GetZkServers(opts, filename, fs, order) == Ok([opts.cluster.value])
    ensures !Truthy(opts.cluster) && !Truthy(filename) ==>
              GetZkServers(opts, filename, fs, order) == Ok(Split(opts.servers, ','))
    ensures !Truthy(opts.cluster) && Truthy(filename) ==>
              && (opts.configfile.None? ==> GetZkServers(opts, filename, fs, order) == Err(TypeError))
              && (GetZkServers(opts, filename, fs, order).Ok? ==> |GetZkServers(opts, filename, fs, order).value| == 1)
  {
  }

  /** In the configuration case any two truthy file names give the same
      result. */
  lemma ConfigFileNameIrrelevant(opts: Options, f1: Option<string>, f2: Option<string>, fs: FileSystem, order: seq<string>)
    requires OrderFits(opts, fs, order)
    requires !Truthy(opts.cluster) && Truthy(f1) && Truthy(f2)
    ensures GetZkServers(opts, f1, fs, order) == GetZkServers(opts, f2, fs, order)
  {
  }

  /** In the configuration case the one string lists, joined by ',', an
      entry for each `server.*` key of the file and nothing else. */
  lemma ConfigServers(opts: Options, filename: Option<string>, fs: FileSystem, order: seq<string>)
    requires OrderFits(opts, fs, order)
    requires !Truthy(opts.cluster) && Truthy(filename) && opts.configfile.Some?
    ensures GetZkServers(opts, filename, fs, order).Ok? <==>
              && opts.configfile.value in fs
              && ConfigOf(fs[opts.configfile.value]).Ok?
              && CLIENT_PORT in ConfigOf(fs[opts.configfile.value]).value
    ensures GetZkServers(opts, filename, fs, order).Ok? ==>
              var config := ConfigOf(fs[opts.configfile.value]).value;
              GetZkServers(opts, filename, fs, order).value ==
                [Join(ServerEntries(config, config[CLIENT_PORT], order), ',')]
    ensures GetZkServers(opts, filename, fs, order).Ok? ==>
              var config := ConfigOf(fs[opts.configfile.value]).value;
              var es := ServerEntries(config, config[CLIENT_PORT], order);
              && |es| == |ServerKeys(config)|
              && forall e :: e in es <==> exists k :: k in ServerKeys(config) && e == ServerEntry(config[k], config[CLIENT_PORT])
  {
    if GetZkServers(opts, filename, fs, order).Ok? {
      var config := ConfigOf(fs[opts.configfile.value]).value;
      ServerEntriesSpec(config, config[CLIENT_PORT], order);
    }
  }

  /** Every entry comes from a `server.*` key listed in the iteration
      order, and every such key gives its entry. */
  lemma {:induction false} ServerEntriesListed(config: map<string, string>, port: string, order: seq<string>)
    ensures forall e :: e in ServerEntries(config, port, order) ==>
              exists k :: k in order && k in config && IsServerKey(k) && e == ServerEntry(config[k], port)
    ensures forall k :: k in order && k in config && IsServerKey(k) ==>
              ServerEntry(config[k], port) in ServerEntries(config, port, order)
    decreases |order|
  {
    if |order| > 0 {
      ServerEntriesListed(config, port, order[1..]);
      assert forall k :: k in order[1..] ==> k in order;
      assert forall k :: k in order ==> k == order[0] || k in order[1..];
    }
  }

  /** The `server.*` keys of `config` that `order` lists. */
  function ListedServerKeys(config: map<string, string>, order: seq<string>): set<string> {
    set k | k in order && k in config && IsServerKey(k)
  }

  /** An order without repeated keys gives one entry per listed `server.*`
      key. */
  lemma {:induction false} ServerEntriesCount(config: map<string, string>, port: string, order: seq<string>)
    requires forall i, j :: 0 <= i < j < |order| ==> order[i] != order[j]
    ensures |ServerEntries(config, port, order)| == |ListedServerKeys(config, order)|
    decreases |order|
  {
    if |order| > 0 {
      var rest := order[1..];
      assert forall i, j :: 0 <= i < j < |rest| ==> rest[i] != rest[j] by {
        forall i, j | 0 <= i < j < |rest| ensures rest[i] != rest[j] {
          assert rest[i] == order[i + 1] && rest[j] == order[j + 1];
        }
      }
      ServerEntriesCount(config, port, rest);
      assert order[0] !in rest by {
        forall i | 0 <= i < |rest| ensures rest[i] != order[0] {
          assert rest[i] == order[i + 1];
        }
      }
      var k := order[0];
      if k in config && IsServerKey(k) {
        assert ListedServerKeys(config, order) == ListedServerKeys(config, rest) + {k};
      } else {
        assert ListedServerKeys(config, order) == ListedServerKeys(config, rest);
      }
    }
  }

  /** Over an iteration order of the configuration, the entries are exactly
      those of its `server.*` keys, one entry per key. */
  lemma ServerEntriesSpec(config: map<string, string>, port: string, order: seq<string>)
    requires IsOrderOf(order, config)
    ensures forall e :: e in ServerEntries(config, port, order) <==>
              exists k :: k in ServerKeys(config) && e == ServerEntry(config[k], port)
    ensures |ServerEntries(config, port, order)| == |ServerKeys(config)|
  {
    ServerEntriesListed(config, port, order);
    ServerEntriesCount(config, port, order);
    assert ListedServerKeys(config, order) == ServerKeys(config);
  }

  lemma {:induction false} ServerEntriesAppend(config: map<string, string>, port: string, a: seq<string>, b: seq<string>)
    ensures ServerEntries(config, port, a + b) == ServerEntries(config, port, a) + ServerEntries(config, port, b)
    decreases |a|
  {
    if |a| == 0 {
      assert a + b == b;
    } else {
      var h := if a[0] in config && IsServerKey(a[0]) then [ServerEntry(config[a[0]], port)] else [];
      assert (a + b)[0] == a[0];
      assert (a + b)[1..] == a[1..] + b;
      ServerEntriesAppend(config, port, a[1..], b);
      assert ServerEntries(config, port, a + b) == h + (ServerEntries(config, port, a[1..]) + ServerEntries(config, port, b));
      assert ServerEntries(config, port, a) == h + ServerEntries(config, port, a[1..]);
      assert h + (ServerEntries(config, port, a[1..]) + ServerEntries(config, port, b))
          == (h + ServerEntries(config, port, a[1..])) + ServerEntries(config, port, b);
    }
  }

  /** Taking element `i` out of a sequence removes one copy of it from the
      multiset. */
  lemma RemoveAt<T>(s: seq<T>, i: nat)
    requires i < |s|
    ensures s == s[..i] + [s[i]] + s[i + 1..]
    ensures multiset(s[..i] + s[i + 1..]) == multiset(s) - multiset{s[i]}
  {
    assert s == s[..i] + [s[i]] + s[i + 1..];
  }

  /** The entries of `order` are those of its `i`-th key plus those of the
      other keys. */
  lemma EntriesWithout(config: map<string, string>, port: string, order: seq<string>, i: nat)
    requires i < |order|
    ensures multiset(ServerEntries(config, port, order)) ==
              multiset(ServerEntries(config, port, [order[i]]))
                + multiset(ServerEntries(config, port, order[..i] + order[i + 1..]))
  {
    RemoveAt(order, i);
    ServerEntriesAppend(config, port, order[..i] + [order[i]], order[i + 1..]);
    ServerEntriesAppend(config, port, order[..i], [order[i]]);
    ServerEntriesAppend(config, port, order[..i], order[i + 1..]);
  }

  /** The dictionary's iteration order does not matter up to order: two
      orders listing the same keys give the same entries, permuted. */
  lemma {:induction false} ServerEntriesPermutation(config: map<string, string>, port: string, o1: seq<string>, o2: seq<string>)
    requires multiset(o1) == multiset(o2)
    ensures multiset(ServerEntries(config, port, o1)) == multiset(ServerEntries(config, port, o2))
    decreases |o1|
  {
    if |o1| == 0 {
      assert |o2| == |multiset(o2)| == 0;
    } else {
      assert o1[0] in multiset(o2);
      var i :| 0 <= i < |o2| && o2[i] == o1[0];
      RestSameKeys(o1, o2, i);
      ServerEntriesPermutation(config, port, o1[1..], o2[..i] + o2[i + 1..]);
      PermutationStep(config, port, o1, o2, i);
    }
  }

  /** Two iteration orders of one configuration give the same entries up
      to permutation. */
  lemma OrdersOfConfig(config: map<string, string>, port: string, o1: seq<string>, o2: seq<string>)
    requires IsOrderOf(o1, config) && IsOrderOf(o2, config)
    ensures multiset(ServerEntries(config, port, o1)) == multiset(ServerEntries(config, port, o2))
  {
    DistinctMultiset(o1);
    DistinctMultiset(o2);
    assert multiset(o1) == multiset(o2) by {
      forall x ensures multiset(o1)[x] == multiset(o2)[x] {
        assert x in o1 <==> x in o2;
      }
    }
    ServerEntriesPermutation(config, port, o1, o2);
  }

  /** A sequence without repeats holds each of its elements once. */
  lemma {:induction false} DistinctMultiset(s: seq<string>)
    requires forall i, j :: 0 <= i < j < |s| ==> s[i] != s[j]
    ensures forall x :: multiset(s)[x] == if x in s then 1 else 0
    decreases |s|
  {
    if |s| > 0 {
      var rest := s[1..];
      assert forall i, j :: 0 <= i < j < |rest| ==> rest[i] != rest[j] by {
        forall i, j | 0 <= i < j < |rest| ensures rest[i] != rest[j] {
          assert rest[i] == s[i + 1] && rest[j] == s[j + 1];
        }
      }
      DistinctMultiset(rest);
      assert s == [s[0]] + rest;
      assert s[0] !in rest by {
        forall i | 0 <= i < |rest| ensures rest[i] != s[0] {
          assert rest[i] == s[i + 1];
        }
      }
      forall x ensures multiset(s)[x] == if x in s then 1 else 0 {
        assert x in s <==> x == s[0] || x in rest;
      }
    }
  }

  lemma RestSameKeys(o1: seq<string>, o2: seq<string>, i: nat)
    requires multiset(o1) == multiset(o2) && 0 < |o1| && i < |o2| && o2[i] == o1[0]
    ensures multiset(o1[1..]) == multiset(o2[..i] + o2[i + 1..])
  {
    RemoveAt(o2, i);
    RemoveAt(o1, 0);
    assert o1[..0] + o1[1..] == o1[1..];
  }

  lemma PermutationStep(config: map<string, string>, port: string, o1: seq<string>, o2: seq<string>, i: nat)
    requires 0 < |o1| && i < |o2| && o2[i] == o1[0]
    requires multiset(ServerEntries(config, port, o1[1..])) == multiset(ServerEntries(config, port, o2[..i] + o2[i + 1..]))
    ensures multiset(ServerEntries(config, port, o1)) == multiset(ServerEntries(config, port, o2))
  {
    EntriesWithout(config, port, o2, i);
    EntriesWithout(config, port, o1, 0);
    assert o1[..0] + o1[1..] == o1[1..];
  }

  /** In the server-list case, joining the result with ',' gives the option
      back, and there is one more entry than there are commas, empty
      entries included. */
  lemma ServersListRoundTrip(opts: Options, filename: Option<string>, fs: FileSystem, order: seq<string>)
    requires OrderFits(opts, fs, order)
    requires !Truthy(opts.cluster) && !Truthy(filename)
    ensures GetZkServers(opts, filename, fs, order).Ok?
    ensures Join(GetZkServers(opts, filename, fs, order).value, ',') == opts.servers
    ensures |GetZkServers(opts, filename, fs, order).value| == CountChar(opts.servers, ',') + 1
  {
    JoinSplit(opts.servers, ',');
    SplitPieces(opts.servers, ',');
  }
}
