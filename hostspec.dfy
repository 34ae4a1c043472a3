/**
 * The host-spec expander: `fileExists` and `parseHostSpec`. The host spec
 * is read as a file of host names if it names something on disk, else as a
 * CIDR block if it contains `/`, else as one literal host.
 *
 * The file system and the CIDR enumerator are inputs: a `FileSystem`
 * value says which paths `os.Stat` accepts and which lines `bufio.Scanner`
 * reads from each path `os.Open` opens; `explodeCidr` maps a CIDR string to
 * its host addresses, already rendered as strings, in enumeration order.
 */
module HostSpec {
  import opened GoStrings
  import opened ScanConfig

  datatype FileSystem = FileSystem(statable: set<string>, readable: map<string, seq<string>>)

  /** `log.Fatal` after `os.Open` fails on a path that `os.Stat` accepted. */
  datatype HostError = HostFileUnreadable(path: string)

  datatype Result<T> = Ok(value: T) | Err(error: HostError)

  /** `fileExists(filename)`: stats the configured host spec, whatever `filename` is. */
  function FileExists(config: Config, filename: string, fs: FileSystem): bool
    reads config
  {
    config.hostSpec in fs.statable
  }

  /** `fileExists` depends on the configuration and the file system only. */
  lemma FileExistsIgnoresName(config: Config, a: string, b: string, fs: FileSystem)
    ensures FileExists(config, a, fs) == FileExists(config, b, fs)
    ensures FileExists(config, a, fs) <==> config.hostSpec in fs.statable
  {
  }

  /** Each line with the spaces at both of its ends removed, line for line. */
  function TrimLines(lines: seq<string>): seq<string> {
    seq(|lines|, i requires 0 <= i < |lines| => Trim(lines[i], ' '))
  }

  /** Reference meaning of `parseHostSpec` for a host spec. */
  function HostSpecHosts(hostSpec: string, fs: FileSystem, explodeCidr: string -> seq<string>): Result<seq<string>> {
    if hostSpec in fs.statable then
      if hostSpec in fs.readable then Ok(TrimLines(fs.readable[hostSpec]))
      else Err(HostFileUnreadable(hostSpec))
    else if '/' in hostSpec then Ok(explodeCidr(hostSpec))
    else Ok([hostSpec])
  }

  /** `parseHostSpec`, reading the host spec of `config`. */
  method ParseHostSpec(config: Config, fs: FileSystem, explodeCidr: string -> seq<string>)
    returns (r: Result<seq<string>>)
    ensures r == HostSpecHosts(config.hostSpec, fs, explodeCidr)
  {
    var ret: seq<string> := [];
    if FileExists(config, config.hostSpec, fs) {
      if config.hostSpec !in fs.readable {
        return Err(HostFileUnreadable(config.hostSpec));
      }
      var lines := fs.readable[config.hostSpec];
      for k := 0 to |lines|
        invariant ret == TrimLines(lines[..k])
      {
        assert TrimLines(lines[..k + 1]) == TrimLines(lines[..k]) + [Trim(lines[k], ' ')];
        ret := ret + [Trim(lines[k], ' ')];
      }
      assert lines[..|lines|] == lines;
      assert ret == TrimLines(lines);
    } else if '/' in config.hostSpec {
      var hosts := explodeCidr(config.hostSpec);
      for k := 0 to |hosts|
        invariant ret == hosts[..k]
      {
        ret := ret + [hosts[k]];
      }
      assert hosts[..|hosts|] == hosts;
    } else {
      assert config.hostSpec !in fs.statable;
      ret := ret + [config.hostSpec];
      assert ret == [config.hostSpec];
    }
    return Ok(ret);
  }

  /**
   * A host file yields one host per line, in line order: the line without
   * the spaces at its ends, and nothing else removed (so tabs stay, and an
   * empty or all-space line yields an empty host). A file that `os.Stat`
   * accepts but `os.Open` refuses is fatal.
   */
  lemma FileHosts(hostSpec: string, fs: FileSystem, explodeCidr: string -> seq<string>)
    requires hostSpec in fs.statable
    ensures hostSpec !in fs.readable ==> HostSpecHosts(hostSpec, fs, explodeCidr) == Err(HostFileUnreadable(hostSpec))
    ensures hostSpec in fs.readable ==>
      var lines := fs.readable[hostSpec];
      var r := HostSpecHosts(hostSpec, fs, explodeCidr);
      r.Ok? && |r.value| == |lines| &&
      forall i :: 0 <= i < |lines| ==>
        Unpadded(r.value[i], ' ') && TrimmedFrom(r.value[i], lines[i], ' ') &&
        (forall k :: 0 <= k < |lines[i]| ==> lines[i][k] == ' ') == (r.value[i] == "")
  {
    if hostSpec in fs.readable {
      var lines := fs.readable[hostSpec];
      var hosts := TrimLines(lines);
      forall i | 0 <= i < |lines|
        ensures (forall k :: 0 <= k < |lines[i]| ==> lines[i][k] == ' ') == (hosts[i] == "")
      {
        var line := lines[i];
        if forall k :: 0 <= k < |line| ==> line[k] == ' ' {
          assert "" == line[|line|..|line|];
          TrimUnique("", line, ' ');
        }
        if hosts[i] == "" {
          var a, b :| 0 <= a <= b <= |line| && hosts[i] == line[a..b] &&
            (forall k :: 0 <= k < a ==> line[k] == ' ') &&
            (forall k :: b <= k < |line| ==> line[k] == ' ');
          assert a == b;
        }
      }
    }
  }

  /**
   * Without a file of that name, a spec containing `/` yields exactly the
   * CIDR enumeration, in its order, and any other spec yields itself as the
   * one host (even the empty spec).
   */
  lemma NonFileHosts(hostSpec: string, fs: FileSystem, explodeCidr: string -> seq<string>)
    requires hostSpec !in fs.statable
    ensures '/' in hostSpec ==> HostSpecHosts(hostSpec, fs, explodeCidr) == Ok(explodeCidr(hostSpec))
    ensures '/' !in hostSpec ==> HostSpecHosts(hostSpec, fs, explodeCidr) == Ok([hostSpec])
  {
  }
}
