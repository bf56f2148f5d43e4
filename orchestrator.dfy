/** `prove_alpha`: proving a guest on the remote Bonsai service in two stages. The
    image and input are uploaded and a STARK session is created and polled until a
    receipt can be downloaded; then a SNARK session over the same session id is
    created and polled until it yields the succinct proof.

    The service is a scripted client: each reply is fixed in advance, and each poll
    loop consumes its script one reply per status call. When a script runs out while
    the source would keep polling, the run ends `Exhausted`. */
module Orchestrator {
  import opened Wrappers
  import opened Hex
  import opened RelayTypes

  /** `POLL_INTERVAL_SEC`: the pause after every poll that does not end a loop. */
  const POLL_INTERVAL_SEC: nat := 4

  /** What `upload_img` answers. */
  datatype UploadReply = Uploaded | ImageIdExists | UploadFailed(cause: string)

  /** A STARK session status reply. */
  datatype SessionStatus = SessionStatus(status: string, receiptUrl: Option<string>)

  /** A SNARK session status reply. */
  datatype SnarkStatus = SnarkStatus(status: string, output: Option<SnarkProof>)

  /** The scripted service client: `from_env`, one answer per one-shot call, a script
      per poll loop, and `download` as a function of the URL. */
  datatype Client = Client(
    fromEnv: Result<(), string>,
    uploadImg: UploadReply,
    uploadInput: Result<string, string>,
    createSession: Result<string, string>,
    sessionStatus: seq<Result<SessionStatus, string>>,
    download: string -> Result<Bytes, string>,
    createSnark: Result<string, string>,
    snarkStatus: seq<Result<SnarkStatus, string>>)

  /** Deterministic code outside the relay: the image digest of an ELF (`get_digest`),
      `bincode::deserialize` of a receipt, and `get_metadata` of a segment. */
  datatype Backend = Backend(
    getDigest: Bytes -> Result<string, string>,
    deserialize: Bytes -> Result<Receipt, string>,
    getMetadata: Segment -> Result<ReceiptMetadata, string>)

  /** The calls a run makes to the service, and the sleeps between polls, in order. */
  datatype Call =
    | UploadImg(imageId: string)
    | UploadInput(input: Bytes)
    | CreateSession(imageId: string, inputId: string)
    | SessionStatusCall(uuid: string)
    | Download(url: string)
    | CreateSnark(uuid: string)
    | SnarkStatusCall(uuid: string)
    | Sleep(seconds: nat)

  /** Where a poll loop stopped: with a value, with an error, or still polling when its
      script ran out. */
  datatype Stage<T> = Done(value: T) | Failed(error: RelayError) | Pending

  /** `n` rounds of "poll, then sleep". */
  function Waiting(poll: Call, n: nat): (t: seq<Call>)
    ensures |t| == 2 * n
  {
    if n == 0 then [] else [poll, Sleep(POLL_INTERVAL_SEC)] + Waiting(poll, n - 1)
  }

  /** The number of status calls, at either stage, in a trace. */
  function Polls(t: seq<Call>): nat {
    if t == [] then 0
    else (if t[0].SessionStatusCall? || t[0].SnarkStatusCall? then 1 else 0) + Polls(t[1..])
  }

  /** The number of sleeps in a trace. */
  function Sleeps(t: seq<Call>): nat {
    if t == [] then 0 else (if t[0].Sleep? then 1 else 0) + Sleeps(t[1..])
  }

  predicate HasCreateSnark(t: seq<Call>) {
    exists i :: 0 <= i < |t| && t[i].CreateSnark?
  }

  // ---------------------------------------------------------------------------
  // Stage 1: the STARK session.

  /** A STARK reply that keeps the loop going: a failed status call, or "RUNNING". */
  predicate StarkRetries(r: Result<SessionStatus, string>) {
    r.Err? || r.value.status == "RUNNING"
  }

  /** What a STARK reply that ends the loop leads to, and the calls it makes after the
      status call itself. */
  function StarkVerdict(c: Client, b: Backend, res: SessionStatus): (v: (Stage<Receipt>, seq<Call>))
    requires res.status != "RUNNING"
    ensures v.0.Done? ==>
      res.status == "SUCCEEDED" && res.receiptUrl.Some? &&
      c.download(res.receiptUrl.value).Ok? &&
      b.deserialize(c.download(res.receiptUrl.value).value) == Ok(v.0.value)
    ensures res.status == "SUCCEEDED" && res.receiptUrl.Some? ==>
      (var dl := c.download(res.receiptUrl.value);
       (dl.Err? ==> v.0 == Failed(DownloadReceipt(dl.error))) &&
       (dl.Ok? && b.deserialize(dl.value).Err? ==> v.0 == Failed(DeserializeReceipt(b.deserialize(dl.value).error))) &&
       (dl.Ok? && b.deserialize(dl.value).Ok? ==> v.0 == Done(b.deserialize(dl.value).value)))
    ensures res.status == "SUCCEEDED" && res.receiptUrl.Some? ==> v.1 == [Download(res.receiptUrl.value)]
    ensures res.status == "SUCCEEDED" && !res.receiptUrl.Some? ==> v == (Failed(MissingReceiptUrl), [])
    ensures res.status != "SUCCEEDED" ==>
      v == (Failed(StarkBadStatus(res.status)), [])
  {
    if res.status == "SUCCEEDED" then
      match res.receiptUrl
      case None => (Failed(MissingReceiptUrl), [])
      case Some(url) =>
        match c.download(url)
        case Err(e) => (Failed(DownloadReceipt(e)), [Download(url)])
        case Ok(buf) =>
          match b.deserialize(buf)
          case Err(e) => (Failed(DeserializeReceipt(e)), [Download(url)])
          case Ok(receipt) => (Done(receipt), [Download(url)])
    else
      (Failed(StarkBadStatus(res.status)), [])
  }

  /** The STARK poll loop from the `k`-th reply of its script on. */
  function StarkPoll(c: Client, b: Backend, uuid: string, k: nat): (r: (Stage<Receipt>, seq<Call>))
    requires k <= |c.sessionStatus|
    decreases |c.sessionStatus| - k
    ensures r.0.Pending? <==> forall i :: k <= i < |c.sessionStatus| ==> StarkRetries(c.sessionStatus[i])
  {
    if k == |c.sessionStatus| then (Pending, [])
    else if StarkRetries(c.sessionStatus[k]) then
      var (stage, t) := StarkPoll(c, b, uuid, k + 1);
      (stage, [SessionStatusCall(uuid), Sleep(POLL_INTERVAL_SEC)] + t)
    else
      var (stage, t) := StarkVerdict(c, b, c.sessionStatus[k].value);
      (stage, [SessionStatusCall(uuid)] + t)
  }

  /** One unfolding of the STARK loop at a reply that retries. */
  lemma StarkPollRetry(c: Client, b: Backend, uuid: string, k: nat)
    requires k < |c.sessionStatus| && StarkRetries(c.sessionStatus[k])
    ensures StarkPoll(c, b, uuid, k) ==
      (StarkPoll(c, b, uuid, k + 1).0, [SessionStatusCall(uuid), Sleep(POLL_INTERVAL_SEC)] + StarkPoll(c, b, uuid, k + 1).1)
  {
  }

  /** One unfolding of the STARK loop at a reply that ends it. */
  lemma StarkPollEnds(c: Client, b: Backend, uuid: string, k: nat)
    requires k < |c.sessionStatus| && !StarkRetries(c.sessionStatus[k])
    ensures StarkPoll(c, b, uuid, k) ==
      (StarkVerdict(c, b, c.sessionStatus[k].value).0,
       [SessionStatusCall(uuid)] + StarkVerdict(c, b, c.sessionStatus[k].value).1)
  {
  }

  /** The end of the STARK loop on a reply other than "RUNNING": on "SUCCEEDED" the
      receipt is downloaded from the reply's URL and deserialized; any other status fails. */
  method FinishStark(c: Client, b: Backend, res: SessionStatus) returns (stage: Stage<Receipt>, calls: seq<Call>)
    requires res.status != "RUNNING"
    ensures (stage, calls) == StarkVerdict(c, b, res)
  {
    calls := [];
    if res.status != "SUCCEEDED" {
      stage := Failed(StarkBadStatus(res.status));
      return;
    }
    if res.receiptUrl.None? {
      stage := Failed(MissingReceiptUrl);
      return;
    }
    var url := res.receiptUrl.value;
    calls := [Download(url)];
    var buf := c.download(url);
    if buf.Err? {
      stage := Failed(DownloadReceipt(buf.error));
      return;
    }
    var receipt := b.deserialize(buf.value);
    if receipt.Err? {
      stage := Failed(DeserializeReceipt(receipt.error));
    } else {
      stage := Done(receipt.value);
    }
  }

  /** The STARK loop: status-call failures and "RUNNING" retry after a sleep; any other
      status ends it. */
  method PollStark(c: Client, b: Backend, uuid: string) returns (stage: Stage<Receipt>, calls: seq<Call>)
    ensures (stage, calls) == StarkPoll(c, b, uuid, 0)
  {
    calls := [];
    var k := 0;
    while k < |c.sessionStatus|
      invariant k <= |c.sessionStatus|
      invariant StarkPoll(c, b, uuid, k).0 == StarkPoll(c, b, uuid, 0).0
      invariant calls + StarkPoll(c, b, uuid, k).1 == StarkPoll(c, b, uuid, 0).1
      decreases |c.sessionStatus| - k
    {
      var reply := c.sessionStatus[k];
      if reply.Err? || reply.value.status == "RUNNING" {
        StarkPollRetry(c, b, uuid, k);
        var wait := [SessionStatusCall(uuid), Sleep(POLL_INTERVAL_SEC)];
        assert calls + (wait + StarkPoll(c, b, uuid, k + 1).1) == (calls + wait) + StarkPoll(c, b, uuid, k + 1).1;
        calls := calls + wait;
      } else {
        StarkPollEnds(c, b, uuid, k);
        var tail;
        stage, tail := FinishStark(c, b, reply.value);
        calls := calls + ([SessionStatusCall(uuid)] + tail);
        return;
      }
      k := k + 1;
    }
    assert calls + [] == calls;
    stage := Pending;
  }

  /** The STARK loop ends at the first reply that is neither a failed status call nor
      "RUNNING", after exactly one more poll than there were retries, each retry
      followed by one sleep. */
  lemma {:induction false} StarkStopsAtFirstVerdict(c: Client, b: Backend, uuid: string, j: nat, k: nat)
    requires j <= k < |c.sessionStatus|
    requires forall i :: j <= i < k ==> StarkRetries(c.sessionStatus[i])
    requires !StarkRetries(c.sessionStatus[k])
    ensures StarkPoll(c, b, uuid, j).0 == StarkVerdict(c, b, c.sessionStatus[k].value).0
    ensures StarkPoll(c, b, uuid, j).1 ==
      Waiting(SessionStatusCall(uuid), k - j) + [SessionStatusCall(uuid)] + StarkVerdict(c, b, c.sessionStatus[k].value).1
    decreases k - j
  {
    var poll := SessionStatusCall(uuid);
    var v := StarkVerdict(c, b, c.sessionStatus[k].value);
    if j == k {
      StarkPollEnds(c, b, uuid, j);
      assert Waiting(poll, 0) == [];
      assert [] + [poll] + v.1 == [poll] + v.1;
    } else {
      StarkPollRetry(c, b, uuid, j);
      StarkStopsAtFirstVerdict(c, b, uuid, j + 1, k);
      var w := Waiting(poll, k - j - 1);
      assert Waiting(poll, k - j) == [poll, Sleep(POLL_INTERVAL_SEC)] + w;
      assert ([poll, Sleep(POLL_INTERVAL_SEC)] + w) + [poll] + v.1 ==
        [poll, Sleep(POLL_INTERVAL_SEC)] + (w + [poll] + v.1);
    }
  }

  /** When every reply retries, the loop is still polling when the script runs out,
      having polled and slept once per reply. */
  lemma {:induction false} StarkPendingWhenAllRetry(c: Client, b: Backend, uuid: string, j: nat)
    requires j <= |c.sessionStatus|
    requires forall i :: j <= i < |c.sessionStatus| ==> StarkRetries(c.sessionStatus[i])
    ensures StarkPoll(c, b, uuid, j) == (Pending, Waiting(SessionStatusCall(uuid), |c.sessionStatus| - j))
    decreases |c.sessionStatus| - j
  {
    if j < |c.sessionStatus| {
      StarkPendingWhenAllRetry(c, b, uuid, j + 1);
    }
  }

  lemma {:induction false} PollsAppend(s: seq<Call>, t: seq<Call>)
    ensures Polls(s + t) == Polls(s) + Polls(t)
    ensures Sleeps(s + t) == Sleeps(s) + Sleeps(t)
  {
    if s == [] {
      assert s + t == t;
    } else {
      assert (s + t)[0] == s[0];
      assert (s + t)[1..] == s[1..] + t;
      PollsAppend(s[1..], t);
    }
  }

  lemma {:induction false} PollsOfWaiting(poll: Call, n: nat)
    requires poll.SessionStatusCall? || poll.SnarkStatusCall?
    ensures Polls(Waiting(poll, n)) == n && Sleeps(Waiting(poll, n)) == n
  {
    if n > 0 {
      PollsAppend([poll, Sleep(POLL_INTERVAL_SEC)], Waiting(poll, n - 1));
      PollsOfWaiting(poll, n - 1);
    }
  }

  /** A script of `n` retrying replies followed by one that ends the loop: exactly
      `n + 1` status calls and `n` sleeps. */
  lemma StarkPollCount(c: Client, b: Backend, uuid: string, n: nat)
    requires n < |c.sessionStatus|
    requires forall i :: 0 <= i < n ==> StarkRetries(c.sessionStatus[i])
    requires !StarkRetries(c.sessionStatus[n])
    ensures Polls(StarkPoll(c, b, uuid, 0).1) == n + 1
    ensures Sleeps(StarkPoll(c, b, uuid, 0).1) == n
  {
    StarkStopsAtFirstVerdict(c, b, uuid, 0, n);
    var v := StarkVerdict(c, b, c.sessionStatus[n].value);
    var w := Waiting(SessionStatusCall(uuid), n);
    PollsAppend(w + [SessionStatusCall(uuid)], v.1);
    PollsAppend(w, [SessionStatusCall(uuid)]);
    PollsOfWaiting(SessionStatusCall(uuid), n);
    assert Polls(v.1) == 0 && Sleeps(v.1) == 0 by {
      if v.1 != [] { assert v.1[1..] == []; }
    }
  }

  // ---------------------------------------------------------------------------
  // Stage 2: the SNARK session.

  /** A SNARK reply that keeps the loop going: only a successful "RUNNING". */
  predicate SnarkRetries(r: Result<SnarkStatus, string>) {
    r.Ok? && r.value.status == "RUNNING"
  }

  /** What a SNARK reply that ends the loop leads to. */
  function SnarkVerdict(r: Result<SnarkStatus, string>): (v: Stage<SnarkProof>)
    requires !SnarkRetries(r)
    ensures r.Err? ==> v == Failed(SnarkStatusFailed(r.error))
    ensures r.Ok? && r.value.status == "SUCCEEDED" ==>
      v == if r.value.output.Some? then Done(r.value.output.value) else Failed(MissingSnarkOutput)
    ensures r.Ok? && r.value.status != "SUCCEEDED" ==>
      v == Failed(SnarkBadStatus(r.value.status))
  {
    match r
    case Err(e) => Failed(SnarkStatusFailed(e))
    case Ok(res) =>
      if res.status == "SUCCEEDED" then
        match res.output
        case None => Failed(MissingSnarkOutput)
        case Some(proof) => Done(proof)
      else
        Failed(SnarkBadStatus(res.status))
  }

  /** The SNARK poll loop from the `k`-th reply of its script on. */
  function SnarkPoll(c: Client, uuid: string, k: nat): (r: (Stage<SnarkProof>, seq<Call>))
    requires k <= |c.snarkStatus|
    decreases |c.snarkStatus| - k
    ensures r.0.Pending? <==> forall i :: k <= i < |c.snarkStatus| ==> SnarkRetries(c.snarkStatus[i])
  {
    if k == |c.snarkStatus| then (Pending, [])
    else if SnarkRetries(c.snarkStatus[k]) then
      var (stage, t) := SnarkPoll(c, uuid, k + 1);
      (stage, [SnarkStatusCall(uuid), Sleep(POLL_INTERVAL_SEC)] + t)
    else (SnarkVerdict(c.snarkStatus[k]), [SnarkStatusCall(uuid)])
  }

  /** The SNARK loop: only "RUNNING" retries; a failed status call ends it at once. */
  method PollSnark(c: Client, uuid: string) returns (stage: Stage<SnarkProof>, calls: seq<Call>)
    ensures (stage, calls) == SnarkPoll(c, uuid, 0)
  {
    calls := [];
    var k := 0;
    while k < |c.snarkStatus|
      invariant k <= |c.snarkStatus|
      invariant SnarkPoll(c, uuid, k).0 == SnarkPoll(c, uuid, 0).0
      invariant calls + SnarkPoll(c, uuid, k).1 == SnarkPoll(c, uuid, 0).1
      decreases |c.snarkStatus| - k
    {
      calls := calls + [SnarkStatusCall(uuid)];
      var reply := c.snarkStatus[k];
      if reply.Err? {
        return Failed(SnarkStatusFailed(reply.error)), calls;
      }
      var res := reply.value;
      if res.status == "RUNNING" {
        calls := calls + [Sleep(POLL_INTERVAL_SEC)];
      } else if res.status == "SUCCEEDED" {
        if res.output.None? {
          return Failed(MissingSnarkOutput), calls;
        }
        return Done(res.output.value), calls;
      } else {
        return Failed(SnarkBadStatus(res.status)), calls;
      }
      k := k + 1;
    }
    assert calls + [] == calls;
    stage := Pending;
  }

  /** The SNARK loop ends at the first reply that is not a successful "RUNNING" (a
      failed status call included), after one poll per reply up to it. */
  lemma {:induction false} SnarkStopsAtFirstVerdict(c: Client, uuid: string, j: nat, k: nat)
    requires j <= k < |c.snarkStatus|
    requires forall i :: j <= i < k ==> SnarkRetries(c.snarkStatus[i])
    requires !SnarkRetries(c.snarkStatus[k])
    ensures SnarkPoll(c, uuid, j) ==
      (SnarkVerdict(c.snarkStatus[k]), Waiting(SnarkStatusCall(uuid), k - j) + [SnarkStatusCall(uuid)])
    decreases k - j
  {
    var poll := SnarkStatusCall(uuid);
    if j == k {
      assert Waiting(poll, 0) + [poll] == [poll];
    } else {
      SnarkStopsAtFirstVerdict(c, uuid, j + 1, k);
      assert Waiting(poll, k - j) + [poll] == [poll, Sleep(POLL_INTERVAL_SEC)] + (Waiting(poll, k - j - 1) + [poll]);
    }
  }

  /** A failed SNARK status call is returned at once: `n` earlier "RUNNING" replies give
      `n + 1` polls, whatever the script holds after it. */
  lemma SnarkStatusErrorIsFinal(c: Client, uuid: string, n: nat)
    requires n < |c.snarkStatus| && c.snarkStatus[n].Err?
    requires forall i :: 0 <= i < n ==> SnarkRetries(c.snarkStatus[i])
    ensures SnarkPoll(c, uuid, 0).0 == Failed(SnarkStatusFailed(c.snarkStatus[n].error))
    ensures Polls(SnarkPoll(c, uuid, 0).1) == n + 1
  {
    SnarkStopsAtFirstVerdict(c, uuid, 0, n);
    PollsAppend(Waiting(SnarkStatusCall(uuid), n), [SnarkStatusCall(uuid)]);
    PollsOfWaiting(SnarkStatusCall(uuid), n);
  }

  // ---------------------------------------------------------------------------
  // The whole protocol.

  /** The two-stage protocol as a function of the client's replies: the outcome and
      the calls made, in order. */
  function AlphaRun(elf: Bytes, input: Bytes, c: Client, b: Backend): (r: (Outcome, seq<Call>))
    ensures r.0.Finished? && r.0.result.Ok? ==> r.0.result.value.Bonsai?
    ensures r.1 == [] <==> c.fromEnv.Err? || b.getDigest(elf).Err?
    ensures r.1 != [] ==> r.1[0] == UploadImg(b.getDigest(elf).value)
  {
    if c.fromEnv.Err? then (Fail(ClientInit(c.fromEnv.error)), [])
    else match b.getDigest(elf)
    case Err(e) => (Fail(ImageDigest(e)), [])
    case Ok(imgId) =>
      var t0 := [UploadImg(imgId)];
      if c.uploadImg.UploadFailed? then (Fail(UploadImage(c.uploadImg.cause)), t0)
      else
        var t1 := t0 + [UploadInput(input)];
        match c.uploadInput
        case Err(e) => (Fail(UploadInputFailed(e)), t1)
        case Ok(inputId) =>
          var t2 := t1 + [CreateSession(imgId, inputId)];
          match c.createSession
          case Err(e) => (Fail(CreateSessionFailed(e)), t2)
          case Ok(uuid) =>
            var (stark, ts) := StarkPoll(c, b, uuid, 0);
            var t3 := t2 + ts;
            match stark
            case Pending => (Exhausted(StarkStage), t3)
            case Failed(e) => (Fail(e), t3)
            case Done(receipt) =>
              if |receipt.segments| == 0 then (Fail(NoSegments), t3)
              else
                match b.getMetadata(receipt.segments[|receipt.segments| - 1])
                case Err(e) => (Fail(SegmentMetadata(e)), t3)
                case Ok(metadata) =>
                  var t4 := t3 + [CreateSnark(uuid)];
                  match c.createSnark
                  case Err(e) => (Fail(CreateSnarkFailed(e)), t4)
                  case Ok(snarkId) =>
                    var (snark, tn) := SnarkPoll(c, snarkId, 0);
                    var t5 := t4 + tn;
                    match snark
                    case Pending => (Exhausted(SnarkStage), t5)
                    case Failed(e) => (Fail(e), t5)
                    case Done(proof) => (Finished(Ok(Output.Bonsai(receipt.journal, metadata, proof))), t5)
  }

  lemma HasCreateSnarkAppend(s: seq<Call>, t: seq<Call>)
    ensures HasCreateSnark(s + t) <==> HasCreateSnark(s) || HasCreateSnark(t)
  {
    if HasCreateSnark(s) {
      var i :| 0 <= i < |s| && s[i].CreateSnark?;
      assert (s + t)[i] == s[i];
    }
    if HasCreateSnark(t) {
      var i :| 0 <= i < |t| && t[i].CreateSnark?;
      assert (s + t)[|s| + i] == t[i];
    }
    if HasCreateSnark(s + t) {
      var i :| 0 <= i < |s + t| && (s + t)[i].CreateSnark?;
      if i >= |s| { assert t[i - |s|] == (s + t)[i]; }
    }
  }

  /** The STARK loop never requests a SNARK session. */
  lemma {:induction false} StarkPollMakesNoSnarkRequest(c: Client, b: Backend, uuid: string, k: nat)
    requires k <= |c.sessionStatus|
    ensures !HasCreateSnark(StarkPoll(c, b, uuid, k).1)
    decreases |c.sessionStatus| - k
  {
    if k < |c.sessionStatus| {
      if StarkRetries(c.sessionStatus[k]) {
        StarkPollMakesNoSnarkRequest(c, b, uuid, k + 1);
        HasCreateSnarkAppend([SessionStatusCall(uuid), Sleep(POLL_INTERVAL_SEC)], StarkPoll(c, b, uuid, k + 1).1);
      } else {
        HasCreateSnarkAppend([SessionStatusCall(uuid)], StarkVerdict(c, b, c.sessionStatus[k].value).1);
      }
    }
  }

  /** Every step before `create_session` succeeded, so the STARK loop ran. */
  predicate ReachesStark(elf: Bytes, c: Client, b: Backend) {
    c.fromEnv.Ok? && b.getDigest(elf).Ok? && !c.uploadImg.UploadFailed? &&
    c.uploadInput.Ok? && c.createSession.Ok?
  }

  /** The trace of the steps before the STARK loop. */
  function PreambleCalls(elf: Bytes, input: Bytes, c: Client, b: Backend): seq<Call>
    requires ReachesStark(elf, c, b)
  {
    [UploadImg(b.getDigest(elf).value), UploadInput(input),
     CreateSession(b.getDigest(elf).value, c.uploadInput.value)]
  }

  /** An image upload that succeeds or reports `ImageIdExists` leads to the input upload;
      any other upload error ends the run before `upload_input` and `create_session`. */
  lemma UploadDecides(elf: Bytes, input: Bytes, c: Client, b: Backend)
    requires c.fromEnv.Ok? && b.getDigest(elf).Ok?
    ensures var imgId := b.getDigest(elf).value;
      var run := AlphaRun(elf, input, c, b);
      if c.uploadImg.UploadFailed? then
        run == (Fail(UploadImage(c.uploadImg.cause)), [UploadImg(imgId)])
      else
        |run.1| >= 2 && run.1[..2] == [UploadImg(imgId), UploadInput(input)]
  {
  }

  lemma {:induction false} StarkPollIgnoresUpload(c: Client, b: Backend, uuid: string, u: UploadReply, k: nat)
    requires k <= |c.sessionStatus|
    ensures StarkPoll(c.(uploadImg := u), b, uuid, k) == StarkPoll(c, b, uuid, k)
    decreases |c.sessionStatus| - k
  {
    if k < |c.sessionStatus| {
      StarkPollIgnoresUpload(c, b, uuid, u, k + 1);
    }
  }

  lemma {:induction false} SnarkPollIgnoresUpload(c: Client, uuid: string, u: UploadReply, k: nat)
    requires k <= |c.snarkStatus|
    ensures SnarkPoll(c.(uploadImg := u), uuid, k) == SnarkPoll(c, uuid, k)
    decreases |c.snarkStatus| - k
  {
    if k < |c.snarkStatus| {
      SnarkPollIgnoresUpload(c, uuid, u, k + 1);
    }
  }

  /** `ImageIdExists` is handled exactly like a successful upload: same outcome, same
      calls. */
  lemma ImageIdExistsIsUploaded(elf: Bytes, input: Bytes, c: Client, b: Backend)
    ensures AlphaRun(elf, input, c.(uploadImg := ImageIdExists), b) == AlphaRun(elf, input, c.(uploadImg := Uploaded), b)
  {
    if c.createSession.Ok? {
      var uuid := c.createSession.value;
      StarkPollIgnoresUpload(c, b, uuid, ImageIdExists, 0);
      StarkPollIgnoresUpload(c, b, uuid, Uploaded, 0);
    }
    if c.createSnark.Ok? {
      SnarkPollIgnoresUpload(c, c.createSnark.value, ImageIdExists, 0);
      SnarkPollIgnoresUpload(c, c.createSnark.value, Uploaded, 0);
    }
  }

  /** `create_snark` is requested only after every earlier step succeeded, the STARK loop
      produced a receipt with at least one segment, and the last segment's metadata was
      read. */
  lemma SnarkRequestedOnlyAfterStark(elf: Bytes, input: Bytes, c: Client, b: Backend)
    requires HasCreateSnark(AlphaRun(elf, input, c, b).1)
    ensures ReachesStark(elf, c, b)
    ensures var stark := StarkPoll(c, b, c.createSession.value, 0).0;
      stark.Done? && |stark.value.segments| > 0 &&
      b.getMetadata(stark.value.segments[|stark.value.segments| - 1]).Ok?
  {
    if !ReachesStark(elf, c, b) {
      assert false;
    }
    var uuid := c.createSession.value;
    var t2 := PreambleCalls(elf, input, c, b);
    StarkPollMakesNoSnarkRequest(c, b, uuid, 0);
    HasCreateSnarkAppend(t2, StarkPoll(c, b, uuid, 0).1);
  }

  /** A receipt with no segments ends the run with "receipt contains no segments", and
      no SNARK session is requested. */
  lemma EmptyReceiptFails(elf: Bytes, input: Bytes, c: Client, b: Backend)
    requires ReachesStark(elf, c, b)
    requires var stark := StarkPoll(c, b, c.createSession.value, 0).0;
      stark.Done? && |stark.value.segments| == 0
    ensures AlphaRun(elf, input, c, b).0 == Fail(NoSegments)
    ensures !HasCreateSnark(AlphaRun(elf, input, c, b).1)
  {
    if HasCreateSnark(AlphaRun(elf, input, c, b).1) {
      SnarkRequestedOnlyAfterStark(elf, input, c, b);
    }
  }

  /** A successful run carries the stage-1 receipt's journal, the metadata of its last
      segment and the stage-2 proof, and it made the calls of both stages in order. */
  lemma SuccessCombinesStages(elf: Bytes, input: Bytes, c: Client, b: Backend)
    requires AlphaRun(elf, input, c, b).0.Finished? && AlphaRun(elf, input, c, b).0.result.Ok?
    ensures ReachesStark(elf, c, b) && c.createSnark.Ok?
    ensures var uuid := c.createSession.value;
      var stark := StarkPoll(c, b, uuid, 0);
      var snark := SnarkPoll(c, c.createSnark.value, 0);
      stark.0.Done? && |stark.0.value.segments| > 0 && snark.0.Done? &&
      var receipt := stark.0.value;
      var metadata := b.getMetadata(receipt.segments[|receipt.segments| - 1]);
      metadata.Ok? &&
      AlphaRun(elf, input, c, b).0 == Finished(Ok(Output.Bonsai(receipt.journal, metadata.value, snark.0.value))) &&
      AlphaRun(elf, input, c, b).1 == PreambleCalls(elf, input, c, b) + stark.1 + [CreateSnark(uuid)] + snark.1
  {
  }

  /** Before the STARK loop, the first step that fails decides the outcome, in source
      order: client creation, image digest, image upload, input upload, session
      creation. The trace stops at the call that failed. */
  lemma PreambleErrorWins(elf: Bytes, input: Bytes, c: Client, b: Backend)
    ensures c.fromEnv.Err? ==> AlphaRun(elf, input, c, b) == (Fail(ClientInit(c.fromEnv.error)), [])
    ensures c.fromEnv.Ok? && b.getDigest(elf).Err? ==>
      AlphaRun(elf, input, c, b) == (Fail(ImageDigest(b.getDigest(elf).error)), [])
    ensures c.fromEnv.Ok? && b.getDigest(elf).Ok? && !c.uploadImg.UploadFailed? && c.uploadInput.Err? ==>
      AlphaRun(elf, input, c, b) ==
        (Fail(UploadInputFailed(c.uploadInput.error)), [UploadImg(b.getDigest(elf).value), UploadInput(input)])
    ensures (c.fromEnv.Ok? && b.getDigest(elf).Ok? && !c.uploadImg.UploadFailed? && c.uploadInput.Ok? &&
             c.createSession.Err?) ==>
      AlphaRun(elf, input, c, b) ==
        (Fail(CreateSessionFailed(c.createSession.error)),
         [UploadImg(b.getDigest(elf).value), UploadInput(input), CreateSession(b.getDigest(elf).value, c.uploadInput.value)])
  {
    if c.fromEnv.Ok? && b.getDigest(elf).Ok? {
      var imgId := b.getDigest(elf).value;
      assert [UploadImg(imgId)] + [UploadInput(input)] == [UploadImg(imgId), UploadInput(input)];
      if c.uploadInput.Ok? {
        assert [UploadImg(imgId)] + [UploadInput(input)] + [CreateSession(imgId, c.uploadInput.value)] ==
          [UploadImg(imgId), UploadInput(input), CreateSession(imgId, c.uploadInput.value)];
      }
    }
  }

  /** Once the STARK loop has run: a script that ran out leaves the run exhausted in
      stage 1, a stage-1 error is the run's error, and a failed metadata read of the
      last segment is reported as such. In each of these cases no SNARK session is
      requested and the trace ends with the STARK loop. */
  lemma StarkOutcome(elf: Bytes, input: Bytes, c: Client, b: Backend)
    requires ReachesStark(elf, c, b)
    ensures var stark := StarkPoll(c, b, c.createSession.value, 0);
      var run := AlphaRun(elf, input, c, b);
      (stark.0.Pending? ==> run.0 == Exhausted(StarkStage)) &&
      (stark.0.Failed? ==> run.0 == Fail(stark.0.error)) &&
      (stark.0.Done? && |stark.0.value.segments| > 0 &&
       b.getMetadata(stark.0.value.segments[|stark.0.value.segments| - 1]).Err? ==>
         run.0 == Fail(SegmentMetadata(b.getMetadata(stark.0.value.segments[|stark.0.value.segments| - 1]).error)))
    ensures var stark := StarkPoll(c, b, c.createSession.value, 0);
      var run := AlphaRun(elf, input, c, b);
      !stark.0.Done? || |stark.0.value.segments| == 0 ||
      b.getMetadata(stark.0.value.segments[|stark.0.value.segments| - 1]).Err? ==>
        run.1 == PreambleCalls(elf, input, c, b) + stark.1 && !HasCreateSnark(run.1)
  {
    var uuid := c.createSession.value;
    var t2 := PreambleCalls(elf, input, c, b);
    assert [UploadImg(b.getDigest(elf).value)] + [UploadInput(input)] + [CreateSession(b.getDigest(elf).value, c.uploadInput.value)] == t2;
    StarkPollMakesNoSnarkRequest(c, b, uuid, 0);
    HasCreateSnarkAppend(t2, StarkPoll(c, b, uuid, 0).1);
  }

  /** A stage-1 receipt with a segment whose metadata was read leads to `create_snark`.
      Its failure is the run's error. Otherwise the SNARK loop decides: a script that
      ran out leaves the run exhausted in stage 2, a stage-2 error is the run's error,
      and a proof yields the remote output built from the receipt's journal, the
      metadata and the proof. */
  lemma SnarkOutcome(elf: Bytes, input: Bytes, c: Client, b: Backend)
    requires ReachesStark(elf, c, b)
    requires var stark := StarkPoll(c, b, c.createSession.value, 0).0;
      stark.Done? && |stark.value.segments| > 0 &&
      b.getMetadata(stark.value.segments[|stark.value.segments| - 1]).Ok?
    ensures var uuid := c.createSession.value;
      var stark := StarkPoll(c, b, uuid, 0);
      var run := AlphaRun(elf, input, c, b);
      c.createSnark.Err? ==>
        run == (Fail(CreateSnarkFailed(c.createSnark.error)), PreambleCalls(elf, input, c, b) + stark.1 + [CreateSnark(uuid)])
    ensures var uuid := c.createSession.value;
      var stark := StarkPoll(c, b, uuid, 0);
      var receipt := stark.0.value;
      var metadata := b.getMetadata(receipt.segments[|receipt.segments| - 1]).value;
      var run := AlphaRun(elf, input, c, b);
      c.createSnark.Ok? ==>
        var snark := SnarkPoll(c, c.createSnark.value, 0);
        run.1 == PreambleCalls(elf, input, c, b) + stark.1 + [CreateSnark(uuid)] + snark.1 &&
        (snark.0.Pending? ==> run.0 == Exhausted(SnarkStage)) &&
        (snark.0.Failed? ==> run.0 == Fail(snark.0.error)) &&
        (snark.0.Done? ==> run.0 == Finished(Ok(Output.Bonsai(receipt.journal, metadata, snark.0.value))))
  {
    var t2 := PreambleCalls(elf, input, c, b);
    assert [UploadImg(b.getDigest(elf).value)] + [UploadInput(input)] + [CreateSession(b.getDigest(elf).value, c.uploadInput.value)] == t2;
  }

  /** `prove_alpha`: upload, create the session, run both poll loops and combine the
      stage-1 journal and metadata with the stage-2 proof. */
  method ProveAlpha(elf: Bytes, input: Bytes, c: Client, b: Backend) returns (outcome: Outcome, calls: seq<Call>)
    ensures (outcome, calls) == AlphaRun(elf, input, c, b)
  {
    if c.fromEnv.Err? {
      return Fail(ClientInit(c.fromEnv.error)), [];
    }
    var digest := b.getDigest(elf);
    if digest.Err? {
      return Fail(ImageDigest(digest.error)), [];
    }
    var imgId := digest.value;
    calls := [UploadImg(imgId)];
    match c.uploadImg {
      case Uploaded =>
      case ImageIdExists =>
      case UploadFailed(e) => return Fail(UploadImage(e)), calls;
    }
    calls := calls + [UploadInput(input)];
    if c.uploadInput.Err? {
      return Fail(UploadInputFailed(c.uploadInput.error)), calls;
    }
    var inputId := c.uploadInput.value;
    calls := calls + [CreateSession(imgId, inputId)];
    if c.createSession.Err? {
      return Fail(CreateSessionFailed(c.createSession.error)), calls;
    }
    var uuid := c.createSession.value;
    var stark, starkCalls := PollStark(c, b, uuid);
    calls := calls + starkCalls;
    if stark.Pending? {
      return Exhausted(StarkStage), calls;
    } else if stark.Failed? {
      return Fail(stark.error), calls;
    }
    var receipt := stark.value;
    if |receipt.segments| == 0 {
      return Fail(NoSegments), calls;
    }
    var metadata := b.getMetadata(receipt.segments[|receipt.segments| - 1]);
    if metadata.Err? {
      return Fail(SegmentMetadata(metadata.error)), calls;
    }
    calls := calls + [CreateSnark(uuid)];
    if c.createSnark.Err? {
      return Fail(CreateSnarkFailed(c.createSnark.error)), calls;
    }
    var snark, snarkCalls := PollSnark(c, c.createSnark.value);
    calls := calls + snarkCalls;
    if snark.Pending? {
      return Exhausted(SnarkStage), calls;
    } else if snark.Failed? {
      return Fail(snark.error), calls;
    }
    outcome := Finished(Ok(Output.Bonsai(receipt.journal, metadata.value, snark.value)));
  }
}
