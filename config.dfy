/**
 * The scanner's configuration record: the host specification, the port
 * specification and the number of worker threads. The program keeps one
 * such record as process-wide state; here it is an object passed to every
 * operation that reads it.
 */
module ScanConfig {

  /** Worker threads used when no `-t` flag is given. */
  const DefaultThreads: int := 8

  datatype Option<T> = None | Some(value: T)

  class Config {
    var hostSpec: string
    var portSpec: string
    var numThreads: int

    /** The zero value of the record, before anything is set. */
    constructor ()
      ensures hostSpec == "" && portSpec == "" && numThreads == 0
    {
      hostSpec, portSpec, numThreads := "", "", 0;
    }

    /** `initConfig`: sets the thread count to its default and touches nothing else. */
    method InitConfig()
      modifies this`numThreads
      ensures numThreads == DefaultThreads
    {
      numThreads := DefaultThreads;
    }

    /**
     * The effect of `parseCmdLine` on the record, given what the flag
     * package read for `-h`, `-p` and `-t`. An absent string flag reads as
     * `""`; an absent `-t` leaves the thread count as it was, because the
     * flag's default is the count held at the time of the call. Printing
     * the usage text when a spec is empty has no effect on the record.
     */
    method ParseCmdLine(hostFlag: string, portFlag: string, threadsFlag: Option<int>)
      modifies this
      ensures hostSpec == hostFlag && portSpec == portFlag
      ensures numThreads == if threadsFlag.Some? then threadsFlag.value else old(numThreads)
    {
      hostSpec := hostFlag;
      portSpec := portFlag;
      if threadsFlag.Some? {
        numThreads := threadsFlag.value;
      }
    }
  }

  /** Configuring as `Scan` does: without `-t`, the scan runs with the default thread count. */
  method Configure(hostFlag: string, portFlag: string, threadsFlag: Option<int>) returns (config: Config)
    ensures fresh(config)
    ensures config.hostSpec == hostFlag && config.portSpec == portFlag
    ensures config.numThreads == if threadsFlag.Some? then threadsFlag.value else DefaultThreads
  {
    config := new Config();
    config.InitConfig();
    config.ParseCmdLine(hostFlag, portFlag, threadsFlag);
  }
}
