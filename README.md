# Relay model

A Dafny model of the RISC Zero governance relay library
(`bonsai/examples/governance/relay/src/lib.rs`), which runs a guest program either
locally or on the remote Bonsai proving service. It covers four parts:

- **Guest resolution** (`Resolver`). An identifier names a guest by its name, or by
  the hex spelling of its 32-byte image digest.
- **Remote proving** (`Orchestrator`). `prove_alpha` uploads the image and the input,
  opens a STARK session and polls it until it can download a receipt. It reads the
  metadata of the receipt's last segment, then opens a SNARK session and polls it
  until it has the succinct proof.
- **Mode dispatch** (`Dispatch`). `resolve_image_output` decodes the hex input and
  calls the remote prover (`bonsai`), or the local prover with proving (`local`) or
  without it (`none`).
- **Shared pieces.** The prover-mode tokens, the output and error types
  (`RelayTypes`), the `hex` crate's decoding and encoding, ASCII case mapping and
  `trim_start_matches("0x")` (`Hex`).

The remote service is a scripted `Client`, a value that fixes every reply in
advance. Each poll loop reads its own script, one reply per status call. If a script
runs out while the source would still be polling, the run ends `Exhausted`. The
poll loops are `while` loops in `PollStark` and `PollSnark`. Each is proved equal
to a recursive reference function (`StarkPoll`, `SnarkPoll`). `ProveAlpha` is proved
equal to `AlphaRun`. Every run also returns the trace of client calls and sleeps it
made. Poll counts and call order are stated about that trace. Lemmas about `AlphaRun`
state, step by step, that the first failing step decides the run's error, and that a
run in which every step succeeds ends with the remote output.
Code outside the relay is passed in as deterministic functions: the image digest,
receipt deserialization, segment metadata and the local executor.

The resolver follows the code as written:

- The name test is `entry.name == to_uppercase(identifier)`, an exact comparison with
  the upper-cased identifier. It is not a case-insensitive comparison of the two names,
  so an entry whose stored name holds a lower-case letter is never found by name
  (`LowercaseNameNeverMatchesByName`).
- A name match does not take precedence over a digest match. The first entry in list
  order that passes either test wins.
- A malformed identifier becomes the all-zero digest, so it still finds an entry
  whose image id is all zeros.

## Model

| member | source | states |
|---|---|---|
| `Hex.HexDecode` | bonsai/examples/governance/relay/src/lib.rs:190 | `hex::decode` succeeds exactly when the text has even length and only hex digits. Byte k is built from digit pair k. Odd length gives `OddLength`; otherwise the error names the first non-hex character and its index. |
| `Hex.HexEncode` | bonsai/examples/governance/relay/src/lib.rs:203 | `hex::encode` writes two characters per byte, each a hex digit and none an upper-case letter. |
| `Hex.HexRoundTrip` | bonsai/examples/governance/relay/src/lib.rs:190-203 | Decoding the output of `hex::encode` gives back the original bytes, for every byte string. |
| `Hex.EncodeOfDecode` | bonsai/examples/governance/relay/src/lib.rs:190-203 | Hex text that decodes is re-encoded by `hex::encode` as the same text in lower case. |
| `Hex.HexDecodeIgnoresCase` | bonsai/examples/governance/relay/src/lib.rs:190 | Upper- or lower-casing hex text changes neither whether it decodes nor what it decodes to. |
| `Hex.ToLower` | bonsai/examples/governance/relay/src/lib.rs:190 | `to_lowercase` keeps the length and each character up to letter case, and leaves no upper-case ASCII letter. |
| `Hex.ToUpper` | bonsai/examples/governance/relay/src/lib.rs:197 | `to_uppercase` keeps the length and each character up to letter case, and leaves no lower-case ASCII letter. |
| `Hex.TrimLeading0x` | bonsai/examples/governance/relay/src/lib.rs:190 | `trim_start_matches("0x")` removes an even number of characters and leaves a string that does not start with "0x". |
| `Hex.TrimLeading0xShape` | bonsai/examples/governance/relay/src/lib.rs:190 | What was removed is exactly a run of "0x" pairs: the input is that run followed by the result. |
| `Hex.TrimLeading0xOfRepeat` | bonsai/examples/governance/relay/src/lib.rs:218 | Any number of "0x" prefixes in front of a string that does not start with "0x" are all removed. |
| `RelayTypes.Token` | bonsai/examples/governance/relay/src/lib.rs:38-44 | Each mode's token is one of "none", "local" and "bonsai", in lower-case letters only. |
| `RelayTypes.FindToken` | bonsai/examples/governance/relay/src/lib.rs:33-44 | Parsing a token gives a variant whose token is exactly that text, or nothing when no variant has that token. |
| `RelayTypes.ParseToken` | bonsai/examples/governance/relay/src/lib.rs:33-44 | Every mode is among the variants and is parsed back from its token. Exactly "none", "local" and "bonsai" parse, naming `None`, `Local` and `Bonsai` respectively. |
| `RelayTypes.BadStatusMessageNamesStatus` | bonsai/examples/governance/relay/src/lib.rs:139-173 | The bad-status error of either stage displays the literal status text at its end. |
| `RelayTypes.UnknownGuestMessageNamesBinary` | bonsai/examples/governance/relay/src/lib.rs:205-209 | The unknown-guest error displays the identifier right after "Unknown guest binary ". |
| `RelayTypes.PassedOnMessageIsCause` | bonsai/examples/governance/relay/src/lib.rs:61-157 | The errors passed on without a context message (metadata read, `create_snark`, SNARK status, image upload, local proving) display their cause unchanged. |
| `Resolver.ImageIdBytes` | bonsai/examples/governance/relay/src/lib.rs:198 | The `[u32; 8]` to `[u8; 32]` cast lays word j out in bytes 4j to 4j+3, least significant byte first. |
| `Resolver.ImageIdBytesRoundTrip` | bonsai/examples/governance/relay/src/lib.rs:198 | The little-endian `[u32; 8]` to `[u8; 32]` cast loses nothing: the image id is recovered from its digest. |
| `Resolver.DigestImageIdRoundTrip` | bonsai/examples/governance/relay/src/lib.rs:198 | Every 32-byte digest is the cast of exactly one image id, so comparing digests is comparing image ids. |
| `Resolver.CandidateDigest` | bonsai/examples/governance/relay/src/lib.rs:189-193 | A non-zero candidate is exactly the 32 bytes the lower-cased, "0x"-stripped identifier decodes to. Whenever that text decodes to 32 bytes, those bytes are the candidate. |
| `Resolver.Matches` | bonsai/examples/governance/relay/src/lib.rs:196-199 | The `find` test: the stored name equals the upper-cased identifier, or the entry's digest equals the candidate. |
| `Resolver.FindFrom` | bonsai/examples/governance/relay/src/lib.rs:194-199 | `find` returns the lowest index whose entry matches and no earlier entry matches. It returns nothing only when no entry matches. |
| `Resolver.FoundGuests` | bonsai/examples/governance/relay/src/lib.rs:201-204 | One string per entry, in list order. Each is 64 characters long and decodes back to that entry's digest. |
| `Resolver.ResolveGuestEntry` | bonsai/examples/governance/relay/src/lib.rs:184-211 | Succeeds exactly when some entry matches, and then returns the first matching entry. If none matches, it returns an unknown-guest error carrying the identifier and one lower-case hex digest per entry, in list order. |
| `Resolver.ResolveIgnoresIdentifierCase` | bonsai/examples/governance/relay/src/lib.rs:189-199 | Two identifiers equal once upper-cased either both resolve, to the same entry, or both fail. |
| `Resolver.CandidateOfHexSpelling` | bonsai/examples/governance/relay/src/lib.rs:189-193 | Any identifier that lower-cases to some number of "0x" prefixes followed by a digest's hex digits has that digest as its candidate, whatever the case of each letter. |
| `Resolver.HexSpellingsLowerToDigest` | bonsai/examples/governance/relay/src/lib.rs:189-190 | The digits in lower or upper case behind "0x" prefixes, and the fully upper-cased spelling, all lower-case to the canonical spelling. |
| `Resolver.MalformedCandidateIsZero` | bonsai/examples/governance/relay/src/lib.rs:189-193 | An identifier that does not decode to exactly 32 bytes has the all-zero candidate. There is no decoding error. |
| `Resolver.ResolveByName` | bonsai/examples/governance/relay/src/lib.rs:194-199 | An entry whose name equals the upper-cased identifier is found, unless an earlier entry matches first. |
| `Resolver.ResolveByCandidate` | bonsai/examples/governance/relay/src/lib.rs:194-199 | An entry whose digest equals the identifier's candidate is found, unless an earlier entry matches first. |
| `Resolver.ResolveByDigest` | bonsai/examples/governance/relay/src/lib.rs:189-199 | An entry is found by any identifier that lower-cases to "0x" prefixes and its digest's hex digits, in any mix of cases, unless an earlier entry matches first. |
| `Resolver.MalformedMatchesZeroImage` | bonsai/examples/governance/relay/src/lib.rs:189-199 | An identifier that does not decode to exactly 32 bytes (a decoding error, or any other length, the empty identifier included) resolves when some entry's image id is all zeros. |
| `Resolver.LowercaseNameNeverMatchesByName` | bonsai/examples/governance/relay/src/lib.rs:197 | An entry whose name holds a lower-case ASCII letter never equals the upper-cased identifier. Such an entry matches exactly when its digest is the candidate. |
| `Orchestrator.StarkVerdict` | bonsai/examples/governance/relay/src/lib.rs:123-145 | "SUCCEEDED" with a URL downloads it: a failed download gives the download error, a failed deserialization the deserialize error, and otherwise the deserialized receipt. A receipt comes from nowhere else. "SUCCEEDED" without a URL gives the missing-URL error and no download. Any other status gives the bad-status error carrying that status. |
| `Orchestrator.StarkPoll` | bonsai/examples/governance/relay/src/lib.rs:113-147 | The STARK loop is still pending at the end of its script exactly when every remaining reply is a failed status call or "RUNNING". |
| `Orchestrator.PollStark` | bonsai/examples/governance/relay/src/lib.rs:113-147 | The loop's result and call trace equal the reference `StarkPoll`. |
| `Orchestrator.FinishStark` | bonsai/examples/governance/relay/src/lib.rs:127-144 | On a reply other than "RUNNING" the loop's ending equals `StarkVerdict`, so on "SUCCEEDED" with a URL it yields the deserialized receipt or the download or deserialize error, and each other case gives its own error. |
| `Orchestrator.StarkStopsAtFirstVerdict` | bonsai/examples/governance/relay/src/lib.rs:113-147 | Failed status calls and "RUNNING" never end the loop. It ends at the first other reply with that reply's verdict. Each retry is one poll followed by one sleep, and the final poll is not followed by a sleep. |
| `Orchestrator.StarkPendingWhenAllRetry` | bonsai/examples/governance/relay/src/lib.rs:114-126 | When every reply retries, the loop is still polling when the script ends, having polled and slept once per reply. |
| `Orchestrator.StarkPollCount` | bonsai/examples/governance/relay/src/lib.rs:113-147 | n retrying replies followed by one that ends the loop give exactly n + 1 status calls and n sleeps. |
| `Orchestrator.SnarkVerdict` | bonsai/examples/governance/relay/src/lib.rs:157-174 | A failed status call is a SNARK status error. "SUCCEEDED" yields the output, or "output expected to be non-empty on success" when there is none. Any other status gives the bad-status error carrying it. |
| `Orchestrator.SnarkPoll` | bonsai/examples/governance/relay/src/lib.rs:156-175 | The SNARK loop is still pending at the end of its script exactly when every remaining reply is a successful "RUNNING". |
| `Orchestrator.PollSnark` | bonsai/examples/governance/relay/src/lib.rs:156-175 | The loop's result and call trace equal the reference `SnarkPoll`. |
| `Orchestrator.SnarkStopsAtFirstVerdict` | bonsai/examples/governance/relay/src/lib.rs:156-175 | Only a successful "RUNNING" retries. The loop ends at the first other reply, a failed status call included, after one poll per reply. |
| `Orchestrator.SnarkStatusErrorIsFinal` | bonsai/examples/governance/relay/src/lib.rs:157 | A failed SNARK status call is returned at once, with no retry, after exactly n + 1 polls. |
| `Orchestrator.StarkPollMakesNoSnarkRequest` | bonsai/examples/governance/relay/src/lib.rs:113-147 | The STARK loop never requests a SNARK session. |
| `Orchestrator.AlphaRun` | bonsai/examples/governance/relay/src/lib.rs:93-182 | A successful run always yields the remote output. The trace is empty exactly when client creation or the image digest fails, and otherwise starts with the image upload. |
| `Orchestrator.PreambleErrorWins` | bonsai/examples/governance/relay/src/lib.rs:94-110 | Before the STARK loop the first failing step decides the error, in source order: client creation, image digest, input upload, session creation. The trace stops at the failed call. |
| `Orchestrator.UploadDecides` | bonsai/examples/governance/relay/src/lib.rs:98-106 | An image upload that succeeds or reports `ImageIdExists` is followed by the input upload. Any other upload error ends the run with that error, before `upload_input` and `create_session`. |
| `Orchestrator.ImageIdExistsIsUploaded` | bonsai/examples/governance/relay/src/lib.rs:98-102 | A run where the image already exists has the same outcome and calls as one where the upload succeeded. |
| `Orchestrator.SnarkRequestedOnlyAfterStark` | bonsai/examples/governance/relay/src/lib.rs:148-155 | `create_snark` is requested only when every earlier step succeeded, the STARK loop produced a receipt with a segment, and the last segment's metadata was read. |
| `Orchestrator.EmptyReceiptFails` | bonsai/examples/governance/relay/src/lib.rs:148-153 | A receipt with no segments ends the run with "receipt contains no segments", and no SNARK session is requested. |
| `Orchestrator.SuccessCombinesStages` | bonsai/examples/governance/relay/src/lib.rs:177-181 | A successful run returns the stage-1 receipt's journal, the metadata of its last segment and the stage-2 proof. Its trace is the uploads and session creation, then the STARK loop, `create_snark` and the SNARK loop, in that order. |
| `Orchestrator.StarkOutcome` | bonsai/examples/governance/relay/src/lib.rs:113-154 | After the STARK loop, a used-up script leaves the run exhausted in stage 1, a stage-1 error becomes the run's error, and a failed metadata read gives the metadata error. In each case the trace ends with the STARK loop and holds no `create_snark`. |
| `Orchestrator.SnarkOutcome` | bonsai/examples/governance/relay/src/lib.rs:156-181 | With a receipt and its metadata in hand, a failed `create_snark` is the run's error. Otherwise the SNARK loop decides: a used-up script leaves the run exhausted in stage 2, a stage-2 error is the run's error, and a proof yields the remote output of the receipt's journal, the metadata and the proof. The trace is the uploads, the STARK loop, `create_snark` and the SNARK loop. |
| `Orchestrator.ProveAlpha` | bonsai/examples/governance/relay/src/lib.rs:93-182 | The method's outcome and call trace equal the reference `AlphaRun`. |
| `Dispatch.ProveLocally` | bonsai/examples/governance/relay/src/lib.rs:61-83 | A local run that gives a journal yields an execution-only output of that journal. A failing run yields the local-proving error carrying its cause. |
| `Dispatch.DecodeInput` | bonsai/examples/governance/relay/src/lib.rs:218 | `hex::decode(input.trim_start_matches("0x"))`: decoded bytes re-encode as the stripped input in lower case. The error is `OddLength` exactly when the stripped input has odd length, and otherwise names a non-hex character of it. |
| `Dispatch.Route` | bonsai/examples/governance/relay/src/lib.rs:218-227 | Decoding fails exactly when the "0x"-stripped input is not valid hex; then the error is the input-decode error and no prover is chosen. Otherwise the remote prover is chosen exactly for `bonsai`. The local prover proves exactly for `local`. Both get the guest's ELF and the decoded input. |
| `Dispatch.DecodeFailureCallsNoProver` | bonsai/examples/governance/relay/src/lib.rs:218 | An undecodable input gives the input-decode error, whatever the executor, client or worker would do. |
| `Dispatch.InputPrefixIsCaseSensitive` | bonsai/examples/governance/relay/src/lib.rs:218 | The input is not lower-cased: a leading "0x" is dropped before decoding, while an input starting with "0X" never decodes. |
| `Dispatch.RemoteModeIgnoresExecutor` | bonsai/examples/governance/relay/src/lib.rs:222-224 | `bonsai` mode never calls the local executor. |
| `Dispatch.LocalModesIgnoreRemote` | bonsai/examples/governance/relay/src/lib.rs:225-226 | `local` and `none` never call the remote service. They run the local prover on the ELF and decoded input, proving exactly in `local`. |
| `Dispatch.ResolveImageOutput` | bonsai/examples/governance/relay/src/lib.rs:213-228 | An undecodable input fails before any prover runs. A remote-proof output comes only from `bonsai` mode and an execution-only output only from the local modes. A script can run out only in `bonsai` mode with the worker task succeeding. |
| `Dispatch.JoinFailureIsOffloadError` | bonsai/examples/governance/relay/src/lib.rs:222-224 | A failed worker task is reported as "Failed to run alpha sub-task", whatever the remote run would have produced. |
| `Dispatch.RemoteModeRunsProtocol` | bonsai/examples/governance/relay/src/lib.rs:222-224 | With the worker task succeeding, `bonsai` mode yields exactly the remote protocol's outcome on the ELF and the decoded input. |

## Left out

- Unbounded retry: the STARK loop retries failed status calls forever and both loops poll "RUNNING" forever. A finite script stands in, and a used-up script ends the run `Exhausted`. A run that never ends is not modelled.
- Sleeping: `std::thread::sleep(POLL_INTERVAL_SEC)` appears only as a `Sleep(4)` entry in the call trace. No time passes.
- `prove_locally` internals (`ExecutorEnv`, `Executor`, `session.prove()`) belong to the zkVM. They are an `Executor` function from (ELF, input, prove) to a journal or an error message. The model does not tell its failure causes apart.
- `get_digest` (ELF loading and memory-image hashing) is an opaque deterministic function of the ELF bytes (`Backend.getDigest`).
- `Client::from_env`, the HTTP upload, session and download calls, and `bincode::deserialize` are network and serialization libraries. Each comes from the scripted `Client` or from a `Backend` function. Request arguments are recorded in the trace. Except for `download`, whose reply is a function of the receipt URL, they do not change the replies. The image upload is recorded with its image id only: the ELF bytes sent with it are not part of the trace.
- `Receipt::inner.flat()` and `get_metadata`: a receipt is given directly as its flattened segment list, and a segment's metadata comes from the opaque `Backend.getMetadata`. `ReceiptMetadata` and `SnarkProof` contents are opaque.
- `tokio::task::spawn_blocking` and the await: there is no concurrency. A join failure is an optional cause given as a parameter, and it yields the offload error.
- `eprint!` logging, and the clap `ValueEnum` plumbing beyond the token mapping and default case-sensitive parsing.
- Unicode case mapping: `to_lowercase` and `to_uppercase` are modelled on ASCII letters only, with every other character unchanged. Whether hex decoding succeeds is still exact, because no non-ASCII character lower-cases to a hex digit. Name comparison with non-ASCII identifiers is not exact.
- `Hex.HexDecode`: `hex::decode` works on UTF-8 bytes. For text with non-ASCII characters, the model checks length and reports invalid characters per character, so the error kind and index can differ from the source. Whether decoding succeeds is unchanged.
- Error cause chains: `RelayTypes.Message` gives only the text an error displays, which is the outermost context message. The full `anyhow` chain is not modelled.
- `ImageIdBytes` models `bytemuck::cast` on a little-endian target. Big-endian layout is not modelled.
