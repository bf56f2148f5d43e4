/** The relay's value types: the prover mode and its command-line tokens, the proof
    artifacts, the output of one invocation and the errors it can end in. */
module RelayTypes {
  import opened Wrappers
  import opened Hex

  /** How the guest is run: execute only, execute and prove on this machine, or prove
      on the remote Bonsai service. */
  datatype ProverMode = None | Local | Bonsai

  /** `value_variants`: every mode, in declaration order. */
  function Variants(): seq<ProverMode> {
    [ProverMode.None, ProverMode.Local, ProverMode.Bonsai]
  }

  /** `to_possible_value`: the literal token naming each mode. */
  function Token(m: ProverMode): (t: string)
    ensures t in {"none", "local", "bonsai"}
    ensures forall i :: 0 <= i < |t| ==> 'a' <= t[i] <= 'z'
  {
    match m
    case None => "none"
    case Local => "local"
    case Bonsai => "bonsai"
  }

  /** clap's `ValueEnum::from_str` without case folding: the first variant whose token
      equals the argument. */
  function FindToken(vs: seq<ProverMode>, s: string): (r: Option<ProverMode>)
    ensures r.Some? ==> r.value in vs && Token(r.value) == s
    ensures !r.Some? ==> forall m :: m in vs ==> Token(m) != s
  {
    if vs == [] then Option.None
    else if Token(vs[0]) == s then Some(vs[0])
    else FindToken(vs[1..], s)
  }

  function ParseMode(s: string): Option<ProverMode> {
    FindToken(Variants(), s)
  }

  /** Every mode is recovered from its token, a token names exactly one mode, and the
      tokens name the modes as the command line documents them. */
  lemma ParseToken(m: ProverMode, s: string)
    ensures m in Variants()
    ensures ParseMode("none") == Some(ProverMode.None)
    ensures ParseMode("local") == Some(ProverMode.Local)
    ensures ParseMode("bonsai") == Some(ProverMode.Bonsai)
    ensures ParseMode(Token(m)) == Some(m)
    ensures ParseMode(s).Some? <==> s in {"none", "local", "bonsai"}
  {
    match m
    case None =>
    case Local =>
    case Bonsai =>
  }

  /** Opaque summary of the claim a STARK receipt proves. */
  datatype ReceiptMetadata = ReceiptMetadata(claim: Bytes)

  /** Opaque succinct proof returned by the second stage. */
  datatype SnarkProof = SnarkProof(proof: Bytes)

  /** One segment of a flattened receipt. */
  datatype Segment = Segment(seal: Bytes)

  /** A deserialized STARK receipt: the journal and the receipt's segments in order. */
  datatype Receipt = Receipt(journal: Bytes, segments: seq<Segment>)

  /** Result of executing a guest image, possibly with a remote proof. */
  datatype Output =
    | Execution(journal: Bytes)
    | Bonsai(journal: Bytes, receiptMetadata: ReceiptMetadata, snarkProof: SnarkProof)

  /** Every way an invocation of the relay can fail. Where the source attaches a
      context message the constructor is named after that step; `cause` is the
      underlying error's text. */
  datatype RelayError =
    | InputDecode(hexError: HexError)
    | UnknownGuest(binary: string, found: seq<string>)
    | LocalProving(cause: string)
    | OffloadFailed(cause: string)
    | ClientInit(cause: string)
    | ImageDigest(cause: string)
    | UploadImage(cause: string)
    | UploadInputFailed(cause: string)
    | CreateSessionFailed(cause: string)
    | MissingReceiptUrl
    | DownloadReceipt(cause: string)
    | DeserializeReceipt(cause: string)
    | StarkBadStatus(status: string)
    | NoSegments
    | SegmentMetadata(cause: string)
    | CreateSnarkFailed(cause: string)
    | SnarkStatusFailed(cause: string)
    | SnarkBadStatus(status: string)
    | MissingSnarkOutput

  /** Rust's `{:?}` of a list of hex strings: quoted, comma separated, in brackets. */
  function DebugList(xs: seq<string>): string {
    "[" + QuotedItems(xs) + "]"
  }

  function QuotedItems(xs: seq<string>): string {
    if xs == [] then ""
    else if |xs| == 1 then "\"" + xs[0] + "\""
    else "\"" + xs[0] + "\", " + QuotedItems(xs[1..])
  }

  predicate EndsWith(s: string, suffix: string) {
    |suffix| <= |s| && s[|s| - |suffix|..] == suffix
  }

  lemma AppendEndsWith(prefix: string, s: string)
    ensures EndsWith(prefix + s, s)
  {
    assert (prefix + s)[|prefix|..] == s;
  }

  lemma AppendSlice(prefix: string, s: string, rest: string)
    ensures (prefix + s + rest)[|prefix|..|prefix| + |s|] == s
  {
  }

  /** The text an error displays: the outermost context message, or the underlying
      error's own text where the source adds no context. */
  function Message(e: RelayError): string
  {
    match e
    case InputDecode(_) => "Failed to decode input"
    case UnknownGuest(binary, found) => "Unknown guest binary " + binary + ", found: " + DebugList(found)
    case LocalProving(cause) => cause
    case OffloadFailed(_) => "Failed to run alpha sub-task"
    case ClientInit(_) => "Failed to create client from env var"
    case ImageDigest(_) => "Failed to generate elf memory image"
    case UploadImage(cause) => cause
    case UploadInputFailed(_) => "Failed to upload input data"
    case CreateSessionFailed(_) => "Failed to create remote proving session"
    case MissingReceiptUrl => "Missing 'receipt_url' on status response"
    case DownloadReceipt(_) => "Failed to download receipt"
    case DeserializeReceipt(_) => "Failed to deserialize Receipt"
    case StarkBadStatus(status) =>
      "STARK proving session exited with bad status: " + status
    case NoSegments => "receipt contains no segments"
    case SegmentMetadata(cause) => cause
    case CreateSnarkFailed(cause) => cause
    case SnarkStatusFailed(cause) => cause
    case SnarkBadStatus(status) =>
      "SNARK proving session exited with bad status: " + status
    case MissingSnarkOutput => "output expected to be non-empty on success"
  }

  /** A bad-status error, at either stage, displays the literal status text at its end. */
  lemma BadStatusMessageNamesStatus(status: string)
    ensures EndsWith(Message(StarkBadStatus(status)), status)
    ensures EndsWith(Message(SnarkBadStatus(status)), status)
  {
    AppendEndsWith("STARK proving session exited with bad status: ", status);
    AppendEndsWith("SNARK proving session exited with bad status: ", status);
  }

  /** The unknown-guest error displays the identifier right after "Unknown guest binary ". */
  lemma UnknownGuestMessageNamesBinary(binary: string, found: seq<string>)
    ensures var m := Message(UnknownGuest(binary, found));
      21 + |binary| <= |m| && m[21..21 + |binary|] == binary
  {
    var prefix := "Unknown guest binary ";
    var rest := ", found: " + DebugList(found);
    assert |prefix| == 21;
    assert Message(UnknownGuest(binary, found)) == prefix + binary + rest;
    AppendSlice(prefix, binary, rest);
  }

  /** The errors the source passes on without a context message display their cause
      unchanged. */
  lemma PassedOnMessageIsCause(e: RelayError)
    requires e.LocalProving? || e.UploadImage? || e.SegmentMetadata? || e.CreateSnarkFailed? || e.SnarkStatusFailed?
    ensures Message(e) == e.cause
  {
  }

  /** Which of the two remote poll loops a run was still in. */
  datatype PollStage = StarkStage | SnarkStage

  /** How a modelled invocation ends: with the source's own result, or with a poll
      script used up while the source would still be polling. */
  datatype Outcome =
    | Finished(result: Result<Output, RelayError>)
    | Exhausted(stage: PollStage)

  function Fail(e: RelayError): Outcome {
    Finished(Err(e))
  }
}
