/** `resolve_image_output`: decodes the hex input and runs the guest the way the
    prover mode asks, locally or on the remote service. */
module Dispatch {
  import opened Wrappers
  import opened Hex
  import opened RelayTypes
  import opened Resolver
  import opened Orchestrator

  /** The local executor (`prove_locally`'s executor and prover): runs the ELF on the
      input, proving the run when asked, and answers with the journal or an error. */
  type Executor = (Bytes, Bytes, bool) -> Result<Bytes, string>

  /** `prove_locally`: the journal of a local run, as an execution-only output. */
  function ProveLocally(elf: Bytes, input: Bytes, prove: bool, run: Executor): (r: Result<Output, RelayError>)
    ensures r.Ok? <==> run(elf, input, prove).Ok?
    ensures r.Ok? ==> r.value == Execution(run(elf, input, prove).value)
    ensures r.Err? ==> r.error == LocalProving(run(elf, input, prove).error)
  {
    match run(elf, input, prove)
    case Err(cause) => Err(LocalProving(cause))
    case Ok(journal) => Ok(Execution(journal))
  }

  /** The prover an invocation calls, with its arguments. */
  datatype ProverCall =
    | ProveAlphaCall(elf: Bytes, input: Bytes)
    | ProveLocallyCall(elf: Bytes, input: Bytes, prove: bool)

  /** The input with every leading "0x" stripped (no case folding here), decoded. The
      bytes it yields re-encode as the stripped input in lower case, and an error names
      a non-hex character of the stripped input, or its odd length. */
  function DecodeInput(input: string): (r: Result<Bytes, HexError>)
    ensures r.Ok? ==> HexEncode(r.value) == ToLower(TrimLeading0x(input))
    ensures r.Err? ==>
      (var t := TrimLeading0x(input);
       (r.error.OddLength? <==> |t| % 2 == 1) &&
       (r.error.InvalidHexCharacter? ==> r.error.index < |t| && !IsHexChar(t[r.error.index])))
  {
    var t := TrimLeading0x(input);
    if HexDecode(t).Ok? then EncodeOfDecode(t); HexDecode(t) else HexDecode(t)
  }

  /** The input's prefix is matched exactly: a leading "0x" is dropped before decoding,
      while "0X" is kept, so its 'X' makes decoding fail. */
  lemma InputPrefixIsCaseSensitive(s: string)
    ensures DecodeInput("0x" + s) == DecodeInput(s)
    ensures DecodeInput("0X" + s).Err?
  {
    assert ("0x" + s)[2..] == s;
    var u := "0X" + s;
    assert !StartsWith0x(u) && !IsHexChar(u[1]);
  }

  /** Which prover `resolve_image_output` calls: none when the input does not decode;
      otherwise the remote prover for `bonsai`, and the local one for `local` (proving)
      and `none` (executing only), always on the guest's ELF and the decoded input. */
  function Route(input: string, entry: GuestEntry, mode: ProverMode): (r: Result<ProverCall, RelayError>)
    ensures r.Err? <==> DecodeInput(input).Err?
    ensures r.Err? ==> r.error == InputDecode(DecodeInput(input).error)
    ensures r.Ok? ==> r.value.elf == entry.elf && r.value.input == DecodeInput(input).value
    ensures r.Ok? ==> (r.value.ProveAlphaCall? <==> mode == ProverMode.Bonsai)
    ensures r.Ok? && r.value.ProveLocallyCall? ==> r.value.prove == (mode == ProverMode.Local)
  {
    match DecodeInput(input)
    case Err(e) => Err(InputDecode(e))
    case Ok(bytes) =>
      Ok(match mode
         case Bonsai => ProveAlphaCall(entry.elf, bytes)
         case Local => ProveLocallyCall(entry.elf, bytes, true)
         case None => ProveLocallyCall(entry.elf, bytes, false))
  }

  /** `resolve_image_output`. The remote prover runs on a worker task; `joinFailure` is
      the cause when that task itself fails, which the caller sees as its own error.
      An undecodable input fails before any prover runs. An execution-only output comes
      only from the local modes and a remote proof only from the `bonsai` mode; a poll
      script can run out only in `bonsai` mode, with the worker task succeeding. */
  function ResolveImageOutput(input: string, entry: GuestEntry, mode: ProverMode, run: Executor,
                              c: Client, b: Backend, joinFailure: Option<string>): (o: Outcome)
    ensures DecodeInput(input).Err? ==> o == Fail(InputDecode(DecodeInput(input).error))
    ensures o.Exhausted? ==> mode == ProverMode.Bonsai && joinFailure.None? && DecodeInput(input).Ok?
    ensures o.Finished? && o.result.Ok? ==> (o.result.value.Bonsai? <==> mode == ProverMode.Bonsai)
  {
    match Route(input, entry, mode)
    case Err(e) => Fail(e)
    case Ok(ProveAlphaCall(elf, bytes)) =>
      if joinFailure.Some? then Fail(OffloadFailed(joinFailure.value)) else AlphaRun(elf, bytes, c, b).0
    case Ok(ProveLocallyCall(elf, bytes, prove)) => Finished(ProveLocally(elf, bytes, prove, run))
  }

  /** An input that does not decode is an error before any prover is called: the
      outcome is the same whatever the local executor, the client or the worker do. */
  lemma DecodeFailureCallsNoProver(input: string, entry: GuestEntry, mode: ProverMode,
                                   run1: Executor, c1: Client, b1: Backend, j1: Option<string>,
                                   run2: Executor, c2: Client, b2: Backend, j2: Option<string>)
    requires DecodeInput(input).Err?
    ensures ResolveImageOutput(input, entry, mode, run1, c1, b1, j1) == Fail(InputDecode(DecodeInput(input).error))
    ensures ResolveImageOutput(input, entry, mode, run1, c1, b1, j1) == ResolveImageOutput(input, entry, mode, run2, c2, b2, j2)
  {
  }

  /** The `bonsai` mode never calls the local executor. */
  lemma RemoteModeIgnoresExecutor(input: string, entry: GuestEntry, run1: Executor, run2: Executor,
                                  c: Client, b: Backend, joinFailure: Option<string>)
    ensures ResolveImageOutput(input, entry, ProverMode.Bonsai, run1, c, b, joinFailure) ==
            ResolveImageOutput(input, entry, ProverMode.Bonsai, run2, c, b, joinFailure)
  {
  }

  /** The `local` and `none` modes never call the remote service: they run the executor
      on the guest's ELF and the decoded input, proving exactly in `local` mode. */
  lemma LocalModesIgnoreRemote(input: string, entry: GuestEntry, mode: ProverMode, run: Executor,
                               c1: Client, b1: Backend, j1: Option<string>,
                               c2: Client, b2: Backend, j2: Option<string>)
    requires mode != ProverMode.Bonsai && DecodeInput(input).Ok?
    ensures ResolveImageOutput(input, entry, mode, run, c1, b1, j1) == ResolveImageOutput(input, entry, mode, run, c2, b2, j2)
    ensures ResolveImageOutput(input, entry, mode, run, c1, b1, j1) ==
            Finished(ProveLocally(entry.elf, DecodeInput(input).value, mode == ProverMode.Local, run))
  {
  }

  /** A failed worker task is reported as such in `bonsai` mode, whatever the remote
      run would have produced. */
  lemma JoinFailureIsOffloadError(input: string, entry: GuestEntry, run: Executor,
                                  c: Client, b: Backend, cause: string)
    requires DecodeInput(input).Ok?
    ensures ResolveImageOutput(input, entry, ProverMode.Bonsai, run, c, b, Some(cause)) == Fail(OffloadFailed(cause))
  {
  }

  /** With the worker task succeeding, `bonsai` mode yields exactly the remote protocol's
      outcome on the guest's ELF and the decoded input. */
  lemma RemoteModeRunsProtocol(input: string, entry: GuestEntry, run: Executor, c: Client, b: Backend)
    requires DecodeInput(input).Ok?
    ensures ResolveImageOutput(input, entry, ProverMode.Bonsai, run, c, b, Option.None) ==
            AlphaRun(entry.elf, DecodeInput(input).value, c, b).0
  {
  }
}
