/**
 * `Main`: reading the command line (`--worker` and the start URL), the usage check, and
 * seeding the frontier with the start URL. Starting and joining the worker threads is
 * not part of this model.
 */
module CrawlerMain {
  import opened Wrappers
  import FrontierStore
  import UrlNormalizer

  const WorkerFlag := "--worker"

  /** An argument starting with `--`. */
  predicate IsOption(arg: string) {
    |arg| >= 2 && arg[..2] == "--"
  }

  /** An argument that can be the start URL: neither `--worker` nor any other `--` option. */
  predicate IsPositional(arg: string) {
    arg != WorkerFlag && !IsOption(arg)
  }

  /** The first positional argument. */
  function FirstPositional(args: seq<string>): (r: Option<string>)
    ensures r.Some? <==> exists i :: 0 <= i < |args| && IsPositional(args[i])
    ensures r.Some? ==> exists i :: 0 <= i < |args| && args[i] == r.value && IsPositional(args[i]) &&
                          forall j :: 0 <= j < i ==> !IsPositional(args[j])
  {
    if args == [] then None
    else if IsPositional(args[0]) then Some(args[0])
    else
      var r := FirstPositional(args[1..]);
      assert forall i :: 0 < i < |args| ==> args[i] == args[1..][i - 1];
      r
  }

  /** The first positional argument of a longer list is found among the earlier arguments if it is there. */
  lemma {:induction false} FirstPositionalSnoc(args: seq<string>, arg: string)
    ensures FirstPositional(args + [arg]) ==
            if FirstPositional(args).Some? then FirstPositional(args)
            else if IsPositional(arg) then Some(arg) else None
  {
    if args == [] {
      assert args + [arg] == [arg];
      assert [arg][1..] == [];
    } else {
      assert (args + [arg])[0] == args[0];
      assert (args + [arg])[1..] == args[1..] + [arg];
      FirstPositionalSnoc(args[1..], arg);
    }
  }

  /** One round of the argument loop: what the flag and the start URL become after `args[i]`. */
  lemma ParseArgsStep(args: seq<string>, i: nat, workerMode: bool, startUrl: Option<string>)
    requires i < |args|
    requires workerMode <==> WorkerFlag in args[..i]
    requires startUrl == FirstPositional(args[..i])
    ensures (workerMode || args[i] == WorkerFlag) <==> WorkerFlag in args[..i + 1]
    ensures FirstPositional(args[..i + 1]) ==
            if args[i] != WorkerFlag && startUrl.None? && !IsOption(args[i]) then Some(args[i]) else startUrl
  {
    assert args[..i + 1] == args[..i] + [args[i]];
    FirstPositionalSnoc(args[..i], args[i]);
  }

  /** `main`, lines reading `args`: the worker flag and the start URL. */
  method ParseArgs(args: seq<string>) returns (workerMode: bool, startUrl: Option<string>)
    ensures workerMode <==> WorkerFlag in args
    ensures startUrl == FirstPositional(args)
  {
    workerMode := false;
    startUrl := None;
    var i := 0;
    while i < |args|
      invariant 0 <= i <= |args|
      invariant workerMode <==> WorkerFlag in args[..i]
      invariant startUrl == FirstPositional(args[..i])
    {
      var arg := args[i];
      ParseArgsStep(args, i, workerMode, startUrl);
      if arg == WorkerFlag {
        workerMode := true;
      } else if startUrl.None? && !IsOption(arg) {
        startUrl := Some(arg);
      }
      i := i + 1;
    }
    assert args[..i] == args;
  }

  /** `main` exits with status 1 when neither worker mode nor a start URL was given. */
  predicate UsageError(args: seq<string>) {
    WorkerFlag !in args && FirstPositional(args).None?
  }

  /** A usage error happens exactly when every argument is a `--` option other than `--worker`. */
  lemma UsageErrorIff(args: seq<string>)
    ensures UsageError(args) <==> forall i :: 0 <= i < |args| ==> IsOption(args[i]) && args[i] != WorkerFlag
  {
  }

  /** `--` options other than `--worker` have no effect wherever they appear. */
  lemma {:induction false} OtherOptionsIgnored(a: seq<string>, option: string, b: seq<string>)
    requires IsOption(option) && option != WorkerFlag
    ensures (WorkerFlag in a + [option] + b) == (WorkerFlag in a + b)
    ensures FirstPositional(a + [option] + b) == FirstPositional(a + b)
    decreases |a|
  {
    if a == [] {
      assert [option] + b == a + [option] + b;
      assert ([option] + b)[1..] == b;
      assert a + b == b;
    } else {
      assert (a + [option] + b)[0] == a[0] && (a + b)[0] == a[0];
      assert (a + [option] + b)[1..] == a[1..] + [option] + b;
      assert (a + b)[1..] == a[1..] + b;
      OtherOptionsIgnored(a[1..], option, b);
    }
  }

  /** Later positional arguments are ignored: the start URL is the first one. */
  lemma LaterPositionalIgnored(a: seq<string>, b: seq<string>)
    requires FirstPositional(a).Some?
    ensures FirstPositional(a + b) == FirstPositional(a)
  {
    var i :| 0 <= i < |a| && a[i] == FirstPositional(a).value && IsPositional(a[i]) &&
             forall j :: 0 <= j < i ==> !IsPositional(a[j]);
    var r := FirstPositional(a + b);
    assert (a + b)[i] == a[i];
    assert forall j :: 0 <= j < i ==> (a + b)[j] == a[j];
    var k :| 0 <= k < |a + b| && (a + b)[k] == r.value && IsPositional((a + b)[k]) &&
             forall j :: 0 <= j < k ==> !IsPositional((a + b)[j]);
    assert forall j :: 0 <= j < i ==> !IsPositional((a + b)[j]);
    assert IsPositional((a + b)[i]);
    assert k == i;
  }

  /**
   * `main` after reading its arguments: on a usage error it stops with status 1; in normal
   * mode it seeds the frontier with the start URL through `addUrl`; in worker mode it
   * leaves the frontier alone.
   */
  method Start(args: seq<string>, frontier: FrontierStore.Frontier) returns (exitCode: Option<int>)
    requires frontier.Valid()
    modifies frontier
    ensures frontier.Valid() && frontier.clock == old(frontier.clock)
    ensures exitCode == Some(1) <==> UsageError(args)
    ensures exitCode.None? <==> !UsageError(args)
    ensures WorkerFlag !in args && !UsageError(args) ==>
              frontier.State() == FrontierStore.Insert(old(frontier.State()), FirstPositional(args), frontier.clock)
    ensures WorkerFlag in args || UsageError(args) ==> frontier.State() == old(frontier.State())
  {
    var workerMode, startUrl := ParseArgs(args);
    if !workerMode && startUrl.None? {
      return Some(1);
    }
    if !workerMode {
      frontier.AddUrl(startUrl);
    }
    exitCode := None;
  }

  /** Seeding stores the normal form of the start URL, once, however often the crawler starts. */
  lemma SeedIsNormalized(t: FrontierStore.Table, clock: nat, startUrl: string)
    requires FrontierStore.Invariant(t, clock)
    ensures var r := FrontierStore.Insert(t, Some(startUrl), clock);
            var n := UrlNormalizer.Normalize(Some(startUrl)).value;
            FrontierStore.HasUrl(r.entries, n) && FrontierStore.Insert(r, Some(startUrl), clock) == r
  {
    FrontierStore.InsertStoresNormalized(t, Some(startUrl), clock);
    FrontierStore.InsertSameNormalForm(t, Some(startUrl), Some(startUrl), clock, clock);
  }
}
