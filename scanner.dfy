/**
 * The scan engine of `Scan` that is not concurrency: building the probe
 * list, hosts times ports, and the aggregator that reports the probes found
 * open. The worker pool between the two is not modelled; its contract is
 * taken as "every probe comes back exactly once, probed, in some order".
 */
module Scanner {
  import opened ScanConfig
  import opened PortSpec
  import opened HostSpec

  /** One probe target and its outcome. */
  datatype Probe = Probe(host: string, port: int, open: bool)

  /** `NewProbe(host, port)`: a target not yet probed. */
  function NewProbe(host: string, port: int): Probe {
    Probe(host, port, false)
  }

  /** The probes for one host, one per port, in port order. */
  function Row(host: string, ports: seq<int>): seq<Probe>
    decreases |ports|
  {
    if ports == [] then []
    else Row(host, ports[..|ports| - 1]) + [NewProbe(host, ports[|ports| - 1])]
  }

  /** The probes for all hosts, host by host. */
  function Product(hosts: seq<string>, ports: seq<int>): seq<Probe>
    decreases |hosts|
  {
    if hosts == [] then []
    else Product(hosts[..|hosts| - 1], ports) + Row(hosts[|hosts| - 1], ports)
  }

  lemma {:induction false} RowAt(host: string, ports: seq<int>)
    ensures |Row(host, ports)| == |ports|
    ensures forall j :: 0 <= j < |ports| ==> Row(host, ports)[j] == NewProbe(host, ports[j])
    decreases |ports|
  {
    if ports != [] {
      RowAt(host, ports[..|ports| - 1]);
    }
  }

  /** The probe list has |hosts| * |ports| entries. */
  lemma {:induction false} ProductLength(hosts: seq<string>, ports: seq<int>)
    ensures |Product(hosts, ports)| == |hosts| * |ports|
    decreases |hosts|
  {
    if hosts != [] {
      var n := |hosts| - 1;
      ProductLength(hosts[..n], ports);
      RowAt(hosts[n], ports);
      MulSucc(n, |ports|);
    }
  }

  /** The entry at `i * |ports| + j` targets host `i` and port `j`. */
  lemma {:induction false} ProductIndex(hosts: seq<string>, ports: seq<int>, i: nat, j: nat)
    requires i < |hosts| && j < |ports|
    ensures i * |ports| + j < |Product(hosts, ports)|
    ensures Product(hosts, ports)[i * |ports| + j] == NewProbe(hosts[i], ports[j])
    decreases |hosts|
  {
    var n := |hosts| - 1;
    var m := |ports|;
    var init := hosts[..n];
    var k := i * m + j;
    ProductLength(init, ports);
    RowAt(hosts[n], ports);
    assert Product(hosts, ports) == Product(init, ports) + Row(hosts[n], ports);
    if i < n {
      MulStep(i, n, m, j);
      ProductIndex(init, ports, i, j);
      assert hosts[i] == init[i];
    } else {
      assert k == n * m + j;
    }
  }

  /** Host-outer, port-inner order: the entry at `i * |ports| + j` targets host `i` and port `j`. */
  lemma ProductAt(hosts: seq<string>, ports: seq<int>)
    ensures |Product(hosts, ports)| == |hosts| * |ports|
    ensures forall i, j :: 0 <= i < |hosts| && 0 <= j < |ports| ==>
      Product(hosts, ports)[i * |ports| + j] == NewProbe(hosts[i], ports[j])
  {
    ProductLength(hosts, ports);
    forall i, j | 0 <= i < |hosts| && 0 <= j < |ports|
      ensures i * |ports| + j < |Product(hosts, ports)| &&
        Product(hosts, ports)[i * |ports| + j] == NewProbe(hosts[i], ports[j])
    {
      ProductIndex(hosts, ports, i, j);
    }
  }

  lemma MulSucc(n: nat, m: nat)
    ensures (n + 1) * m == n * m + m
  {
  }

  lemma MulStep(i: nat, n: nat, m: nat, j: nat)
    requires i < n && j < m
    ensures i * m + j < n * m
  {
    assert (i + 1) * m <= n * m;
  }

  lemma MulPositive(n: nat, m: nat)
    ensures n * m == 0 <==> n == 0 || m == 0
  {
  }

  /** The probe list is empty exactly when there are no hosts or no ports. */
  lemma ProductEmpty(hosts: seq<string>, ports: seq<int>)
    ensures Product(hosts, ports) == [] <==> hosts == [] || ports == []
  {
    ProductLength(hosts, ports);
    MulPositive(|hosts|, |ports|);
  }

  /**
   * The nested loop of `Scan` over the expanded hosts: the ports are
   * re-expanded for each host from the unchanged configuration, so every
   * host is paired with the same port list.
   */
  method BuildProbes(config: Config, hosts: seq<string>) returns (probes: seq<Probe>)
    ensures probes == Product(hosts, PortSpecPorts(config.portSpec))
  {
    ghost var expected := PortSpecPorts(config.portSpec);
    probes := [];
    for i := 0 to |hosts|
      invariant probes == Product(hosts[..i], expected)
    {
      var ports := ParsePortSpec(config);
      probes := AppendRow(probes, hosts[i], ports);
      assert hosts[..i + 1][..i] == hosts[..i];
      assert Product(hosts[..i + 1], expected) == Product(hosts[..i], expected) + Row(hosts[i], expected);
    }
    assert hosts[..|hosts|] == hosts;
  }

  /** The inner loop of `Scan`: appends one probe per port of `ports` for `host`. */
  method AppendRow(probes: seq<Probe>, host: string, ports: seq<int>) returns (extended: seq<Probe>)
    ensures extended == probes + Row(host, ports)
  {
    extended := probes;
    for j := 0 to |ports|
      invariant extended == probes + Row(host, ports[..j])
    {
      assert ports[..j + 1][..j] == ports[..j];
      extended := extended + [NewProbe(host, ports[j])];
    }
    assert ports[..|ports|] == ports;
  }

  /** Input expansion of `Scan`: the hosts of the host spec, each paired with every port of the port spec. */
  method ExpandProbes(config: Config, fs: FileSystem, explodeCidr: string -> seq<string>)
    returns (r: Result<seq<Probe>>)
    ensures HostSpecHosts(config.hostSpec, fs, explodeCidr).Err? ==>
      r == Err(HostSpecHosts(config.hostSpec, fs, explodeCidr).error)
    ensures HostSpecHosts(config.hostSpec, fs, explodeCidr).Ok? ==>
      r == Ok(Product(HostSpecHosts(config.hostSpec, fs, explodeCidr).value, PortSpecPorts(config.portSpec)))
  {
    var hosts := ParseHostSpec(config, fs, explodeCidr);
    if hosts.Err? {
      return Err(hosts.error);
    }
    var probes := BuildProbes(config, hosts.value);
    return Ok(probes);
  }

  /**
   * Empty host and port specs do not give an empty probe list: the empty
   * host spec (which `os.Stat` rejects) is one literal host `""`, and the
   * empty port spec is port 0, so there is exactly one probe.
   */
  lemma EmptySpecsOneProbe(fs: FileSystem, explodeCidr: string -> seq<string>)
    requires "" !in fs.statable
    ensures HostSpecHosts("", fs, explodeCidr) == Ok([""])
    ensures Product([""], PortSpecPorts("")) == [NewProbe("", 0)]
  {
    EmptySpec();
    assert Row("", [0]) == [NewProbe("", 0)];
    assert Product([""], [0]) == Product([], [0]) + Row("", [0]);
  }

  /** `probe.Probe()`: records whether this connect attempt succeeded. */
  function Probed(p: Probe, connected: bool): Probe {
    p.(open := connected)
  }

  /**
   * Every probe of the list, probed: `outcomes[i]` is the outcome of the
   * connect attempt for `probes[i]`, so repeated targets are probed and
   * may fare differently.
   */
  function ProbeAll(probes: seq<Probe>, outcomes: seq<bool>): seq<Probe>
    requires |outcomes| == |probes|
  {
    seq(|probes|, i requires 0 <= i < |probes| => Probed(probes[i], outcomes[i]))
  }

  /** The open probes among `results`, in their order. */
  function OpenOnly(results: seq<Probe>): seq<Probe>
    decreases |results|
  {
    if results == [] then []
    else
      var last := results[|results| - 1];
      OpenOnly(results[..|results| - 1]) + (if last.open then [last] else [])
  }

  /**
   * The aggregator: drains the results in the order they arrive and reports
   * each open probe.
   */
  method Aggregate(results: seq<Probe>) returns (reported: seq<Probe>)
    ensures reported == OpenOnly(results)
  {
    reported := [];
    for k := 0 to |results|
      invariant reported == OpenOnly(results[..k])
    {
      assert results[..k + 1][..k] == results[..k];
      if results[k].open {
        reported := reported + [results[k]];
      }
    }
    assert results[..|results|] == results;
  }

  /** Each open result is reported as often as it arrives; no closed one is reported. */
  lemma {:induction false} OpenOnlyCount(results: seq<Probe>, p: Probe)
    ensures multiset(OpenOnly(results))[p] == if p.open then multiset(results)[p] else 0
    decreases |results|
  {
    if results != [] {
      var n := |results| - 1;
      OpenOnlyCount(results[..n], p);
      assert results == results[..n] + [results[n]];
    }
  }

  /** The report, as a multiset, does not depend on the order in which results arrive. */
  lemma ReportOrderIndependent(xs: seq<Probe>, ys: seq<Probe>)
    requires multiset(xs) == multiset(ys)
    ensures multiset(OpenOnly(xs)) == multiset(OpenOnly(ys))
  {
    forall p ensures multiset(OpenOnly(xs))[p] == multiset(OpenOnly(ys))[p] {
      OpenOnlyCount(xs, p);
      OpenOnlyCount(ys, p);
    }
  }

  /**
   * Whatever order the workers finish in, as long as each probe comes back
   * exactly once, the report holds exactly the probes whose connect attempt
   * succeeded, each target as often as an attempt on it succeeded.
   */
  lemma ScanReport(probes: seq<Probe>, outcomes: seq<bool>, results: seq<Probe>)
    requires |outcomes| == |probes|
    requires multiset(results) == multiset(ProbeAll(probes, outcomes))
    ensures multiset(OpenOnly(results)) == multiset(OpenOnly(ProbeAll(probes, outcomes)))
    ensures forall p :: p in OpenOnly(results) <==>
      exists i :: 0 <= i < |probes| && outcomes[i] && p == Probed(probes[i], true)
  {
    var all := ProbeAll(probes, outcomes);
    ReportOrderIndependent(results, all);
    forall p
      ensures p in OpenOnly(results) <==>
        exists i :: 0 <= i < |probes| && outcomes[i] && p == Probed(probes[i], true)
    {
      OpenOnlyCount(results, p);
      if exists i :: 0 <= i < |probes| && outcomes[i] && p == Probed(probes[i], true) {
        var i :| 0 <= i < |probes| && outcomes[i] && p == Probed(probes[i], true);
        assert all[i] == p;
      }
      if p in results && p.open {
        var i :| 0 <= i < |all| && all[i] == p;
        assert outcomes[i];
      }
    }
  }
}
