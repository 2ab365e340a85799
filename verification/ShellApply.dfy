/**
 Shell.Apply's goroutine accounting: a pipe goroutine per requested stream, a command run, and a deferred drain
 that receives once per goroutine started.
 */
module ShellApply {
  import opened Wrappers
  import opened FanIn
  import opened Selections

  datatype Error = EOF | Other(id: nat)

  /** A stream is not requested, or its pipe cannot be made, or its copy ends with an error or nil. */
  datatype Stream = Unused | NoPipe(err: Error) | Piped(copyErr: Option<Error>)

  /**
   How NewCommand ends; Stdin, Stdout and Stderr in the order Apply sets them up; and how RunContext ends if it is
   reached.
   */
  datatype Shell = Shell(newErr: Option<Error>, streams: seq<Stream>, runErr: Option<Error>)

  /** The streams whose goroutine Apply starts: it gives up at the first pipe it cannot make. */
  function Started(streams: seq<Stream>): seq<Option<Error>> {
    if streams == [] || streams[0].NoPipe? then []
    else (if streams[0].Piped? then [streams[0].copyErr] else []) + Started(streams[1..])
  }

  /** The error of the first pipe that cannot be made. */
  function PipeFailure(streams: seq<Stream>): Option<Error> {
    if streams == [] then None
    else if streams[0].NoPipe? then Some(streams[0].err)
    else PipeFailure(streams[1..])
  }

  /** Receives once per goroutine, in whatever order they get to send; errors.Join drops the nil ones. */
  method Drain(copies: seq<Option<Error>>) returns (errs: seq<Error>)
    ensures forall e :: multiset(errs)[e] == |SendersOf(copies, e)|
    ensures errs == [] <==> forall i :: 0 <= i < |copies| ==> copies[i].None?
  {
    var s := Execute(|copies|);
    var order := s.received;
    errs := [];
    for k := 0 to |order|
      invariant errs == Gathered(copies, order[..k])
    {
      assert order[..k + 1][..k] == order[..k];
      match copies[order[k]] {
        case Some(e) => errs := errs + [e];
        case None =>
      }
    }
    assert order[..|order|] == order;
    forall e
      ensures multiset(errs)[e] == |SendersOf(copies, e)|
    {
      GatheredCount(copies, order, e);
    }
    GatheredNothing(copies, order);
  }

  /** p is where the set-up stops: at the first pipe that cannot be made, or after all streams. */
  ghost predicate StopsAt(streams: seq<Stream>, p: nat) {
    && p <= |streams| && (p < |streams| ==> streams[p].NoPipe?)
    && forall i :: 0 <= i < p ==> !streams[i].NoPipe?
  }

  /** How the copy of a requested stream ends. */
  function CopyOf(stream: Stream): Option<Option<Error>> {
    if stream.Piped? then Some(stream.copyErr) else None
  }

  /** The copies started are those of the requested streams before the first pipe that cannot be made. */
  lemma {:induction false} StartedMeans(streams: seq<Stream>, p: nat)
    requires StopsAt(streams, p)
    ensures PipeFailure(streams) == if p < |streams| then Some(streams[p].err) else None
    ensures IsSelection(streams[..p], CopyOf, Started(streams))
  {
    StartedIsPick(streams, p);
    PickIsSelection(streams[..p], CopyOf);
  }

  lemma {:induction false} StartedIsPick(streams: seq<Stream>, p: nat)
    requires StopsAt(streams, p)
    ensures PipeFailure(streams) == if p < |streams| then Some(streams[p].err) else None
    ensures Started(streams) == Pick(streams[..p], CopyOf)
    decreases |streams|
  {
    if p > 0 {
      var first, rest := streams[0], streams[1..];
      assert forall i :: 0 <= i < |rest| ==> rest[i] == streams[i + 1];
      StartedIsPick(rest, p - 1);
      PickConcat([first], rest[..p - 1], CopyOf);
      assert streams[..p] == [first] + rest[..p - 1];
      assert [first][..0] == [];
      assert Pick([first], CopyOf) == if first.Piped? then [first.copyErr] else [];
    }
  }

  /** Where the set-up stops. */
  lemma {:induction false} StopExists(streams: seq<Stream>) returns (p: nat)
    ensures StopsAt(streams, p)
  {
    p := 0;
    if streams != [] && !streams[0].NoPipe? {
      var rest := streams[1..];
      p := StopExists(rest);
      assert forall i :: 0 < i < |streams| ==> streams[i] == rest[i - 1];
      p := p + 1;
    }
  }

  /** The pipe set-up: which copies were started, and the failure that stopped it. */
  method StartPipes(streams: seq<Stream>) returns (copies: seq<Option<Error>>, failure: Option<Error>)
    ensures copies == Started(streams) && failure == PipeFailure(streams)
  {
    copies := [];
    for i := 0 to |streams|
      invariant Started(streams) == copies + Started(streams[i..])
      invariant PipeFailure(streams) == PipeFailure(streams[i..])
    {
      assert streams[i..][1..] == streams[i + 1..];
      match streams[i] {
        case Unused =>
        case NoPipe(err) => return copies, Some(err);
        case Piped(copyErr) => copies := copies + [copyErr];
      }
    }
    return copies, None;
  }

  /**
   Apply returns the joined errors, [] for nil. If NewCommand fails its error is all. Otherwise the set-up stops at
   some p; the errors are those of the copies started before p, each as often as it occurred, and the one of the pipe
   at p or, if all pipes could be made, the command's own unless that is EOF.
   */
  method ApplyShell(shell: Shell) returns (errs: seq<Error>)
    ensures shell.newErr.Some? ==> errs == [shell.newErr.value]
    ensures shell.newErr.None? ==> exists p :: StopsAt(shell.streams, p) && Reports(shell, p, errs)
    ensures errs == [] <==>
              && shell.newErr.None?
              && NoTrouble(shell.streams)
              && (shell.runErr == None || shell.runErr == Some(EOF))
  {
    if shell.newErr.Some? {
      return [shell.newErr.value];
    }
    var copies, ret := StartPipes(shell.streams);
    if ret.None? && shell.runErr.Some? && shell.runErr.value != EOF {
      ret := shell.runErr;
    }
    var drained := Drain(copies);
    errs := (if ret.Some? then [ret.value] else []) + drained;
    AllClean(shell.streams);
    ghost var p := StopExists(shell.streams);
    StartedMeans(shell.streams, p);
    assert ReportsCopies(shell, p, copies, errs);
  }

  /** The error besides those of the copies. */
  ghost predicate OwnError(shell: Shell, p: nat, e: Error) {
    if p < |shell.streams| then shell.streams[p] == NoPipe(e) else shell.runErr == Some(e) && e != EOF
  }

  ghost predicate ReportsCopies(shell: Shell, p: nat, copies: seq<Option<Error>>, errs: seq<Error>) {
    forall e :: multiset(errs)[e] == |SendersOf(copies, e)| + if OwnError(shell, p, e) then 1 else 0
  }

  /** The errors of the requested streams before p, each as often as it occurred, and the own one. */
  ghost predicate Reports(shell: Shell, p: nat, errs: seq<Error>)
    requires p <= |shell.streams|
  {
    exists copies :: IsSelection(shell.streams[..p], CopyOf, copies) && ReportsCopies(shell, p, copies, errs)
  }

  ghost predicate NoErrors(copies: seq<Option<Error>>) {
    forall i :: 0 <= i < |copies| ==> copies[i].None?
  }

  ghost predicate NoTrouble(streams: seq<Stream>) {
    forall i :: 0 <= i < |streams| ==> streams[i].Unused? || streams[i] == Piped(None)
  }

  lemma NoErrorsConcat(a: seq<Option<Error>>, b: seq<Option<Error>>)
    ensures NoErrors(a + b) <==> NoErrors(a) && NoErrors(b)
  {
    assert forall i :: 0 <= i < |a| ==> (a + b)[i] == a[i];
    assert forall i :: 0 <= i < |b| ==> (a + b)[|a| + i] == b[i];
  }

  lemma {:induction false} AllClean(streams: seq<Stream>)
    ensures PipeFailure(streams).None? && NoErrors(Started(streams)) <==> NoTrouble(streams)
  {
    if streams != [] {
      var first, rest := streams[0], streams[1..];
      AllClean(rest);
      assert NoTrouble(streams) <==> (first.Unused? || first == Piped(None)) && NoTrouble(rest) by {
        assert forall i :: 0 <= i < |rest| ==> streams[i + 1] == rest[i];
        assert forall i :: 0 < i < |streams| ==> streams[i] == rest[i - 1];
      }
      if !first.NoPipe? {
        var head := if first.Piped? then [first.copyErr] else [];
        assert Started(streams) == head + Started(rest) && PipeFailure(streams) == PipeFailure(rest);
        NoErrorsConcat(head, Started(rest));
        assert NoErrors(head) <==> first.Unused? || first == Piped(None) by {
          if first.Piped? { assert head[0] == first.copyErr; }
        }
      }
    }
  }
}
