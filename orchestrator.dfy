/**
 * The sequence of `main` (main.go:134-200): configuration, log level, retain
 * duration, fetching the recordings, selection and deletion, with the exit
 * code the process ends with. The environment parser, `time.ParseDuration`,
 * the listing request and the delete responses are parameters.
 */
module Orchestrator {
  import opened Wrappers
  import opened Recorded
  import opened Retention
  import opened Client
  import opened Deletion
  import opened Logging

  /** The settings read from the environment. */
  datatype Config = Config(
    epgStationBaseURL: string,
    retainDuration: string,
    isDryRun: bool,
    logLevel: string)

  /**
   * One run of the program. `environment` is what the environment parser
   * produced, `parseDuration` stands for `time.ParseDuration`, `getRecorded`
   * for the listing request to the given base URL, `now` is the clock in Unix
   * nanoseconds and `responses(k)` the server's answer to the k-th delete.
   */
  method Run(
    environment: Result<Config, string>,
    parseDuration: string -> Option<Duration>,
    getRecorded: string -> Result<seq<RecordedItem>, string>,
    now: int,
    responses: nat -> Response)
    returns (exitCode: int, level: Level, calls: seq<Int64>, failed: seq<Int64>, planned: seq<Int64>)
    ensures exitCode == 0 || exitCode == 1
    ensures exitCode == 0 <==>
      && environment.Success?
      && parseDuration(environment.value.retainDuration).Some?
      && getRecorded(environment.value.epgStationBaseURL).Success?
    ensures exitCode == 1 ==> calls == [] && failed == [] && planned == []
    ensures level == if environment.Success? then ConfiguredLevel(environment.value.logLevel) else Info
    ensures exitCode == 0 ==>
      var config := environment.value;
      var policy := DeletionPolicy(parseDuration(config.retainDuration).value);
      var deletable := Ids(TsFiles(Targets(getRecorded(config.epgStationBaseURL).value, policy, now)));
      if config.isDryRun then calls == [] && failed == [] && planned == deletable
      else planned == [] && calls == deletable && failed == Failed(calls, responses)
  {
    level, calls, failed, planned := Info, [], [], [];
    if environment.Failure? {
      return 1, level, calls, failed, planned;
    }
    var config := environment.value;
    level := ConfiguredLevel(config.logLevel);

    var retainDuration := parseDuration(config.retainDuration);
    if retainDuration.None? {
      return 1, level, calls, failed, planned;
    }

    var r := getRecorded(config.epgStationBaseURL);
    if r.Failure? {
      return 1, level, calls, failed, planned;
    }

    var policy := DeletionPolicy(retainDuration.value);
    var dst := new RecordSlice();
    ExtractTargetRecordItems(r.value, policy, now, dst);
    assert dst.items == Targets(r.value, policy, now);
    calls, failed, planned := DeleteTargets(dst.items, config.isDryRun, responses);
    exitCode := 0;
  }
}
