# RemSvc: a verified model

RemSvc runs shell commands on a remote server over gRPC. This project models the parts of it whose
correctness is not visible from any single function, and proves what they are for:

* **The integrity hash.** `crc32Hex` is modelled with its machine words and its table. The
  specification is the bit-serial shift register of section 8 of RFC 1952. The table loop is proved
  to refine the register, and the register to hold the one remainder, modulo the generator of section
  8.1.1.6.2 of ITU-T V.42, of the message polynomial times x^32 with the all-ones initial value folded
  in. From that follow the exact condition under which two commands of one length collide, the
  detection of every burst of up to 32 bits in commands of any length, and the affine law.
* **The server.** The command policy, `RemCmd` and `processStream` are a class with the source's fields.
  A stream is proved to be `RemCmd` folded over its requests up to the first refusal, and a damaged
  command is proved never to reach the runner.
* **The stream protocol.** One `RemCmdStrm` call is a step machine: a writer, a reader, two FIFO
  channels of any positive capacity and the sequential server, whose commands may have any outcome and
  whose replies may be lost. A run is any sequence of enabled actions, so each theorem covers every
  interleaving and, where it does not say otherwise, transport failures at any step. The retry loop of
  the Airflow trigger is a second machine around it, in which the streams of failed attempts live on.
* **Smaller cores.** The `$VAR` scanner and the configuration overlay, the bearer-token processor and the
  provider metadata that has to satisfy it, the channel pool, and the loop that drains a child's output.

## How it is organised

| file | what it holds |
|---|---|
| `Gf2.dfy` | polynomials over GF(2): products, remainders, divisibility |
| `Word32.dfy` | the bits of a `uint32_t`; the only place where bit-vectors meet bit lists |
| `Crc.dfy` | the bit-serial register and its theory |
| `Hash.dfy` | the table, the byte loop, `%08x` and its inverse |
| `Service.dfy` | policy, runner, `RemCmd`, `processStream` |
| `Stream.dfy` | one stream as a step machine, for both clients |
| `Trigger.dfy` | analysis of a stream, retries, `run()` |
| `Operator.dfy`, `Client.dfy` | what reaches XCom; the messages both clients send |
| `EnvExpand.dfy`, `ServerConfig.dfy` | the scanner and the overlay |
| `Auth.dfy`, `ChannelPool.dfy`, `Drain.dfy` | the remaining cores |
| `Ordering.dfy`, `Common.dfy` | sorted iteration, shared types |

`dafny verify dfyconfig.toml` checks the whole project.

## Premises and readings

* Once an attempt has failed, its writer hands nothing more to the transport. `asyncio.gather` does not
  itself guarantee this, because it does not cancel the other task when one raises, although the comment
  at `prv/remsvc_provider/triggers/remsvc.py:332-335` says so. What was handed over before stays
  deliverable: the server may take and run it at any later time, also during a later attempt.
* The runner, the connectivity of channels, the child process, the outcome of writes and the order of
  map keys are parameters, so every statement about them holds for all of their behaviours. In the step
  machine a command may have any outcome at each execution.
* The server ignores the result of `Write` (`src/server/RemSvcServiceImpl.cc:372`), and so does the model:
  what `processStream` runs does not depend on it, and in the step machine a `Write` may lose its reply
  while the server goes on.
* Replies reach the client as they were built. `out` and `err` are `string` fields
  (`src/proto/RemSvc.proto:58-59`), which have to be valid UTF-8, and `truncateOutput` cuts at a byte
  (`src/server/RemSvcServiceImpl.cc:24-29`), possibly inside a character. SUCCESS therefore presupposes
  outputs that are valid UTF-8 after truncation; a reply that cannot be decoded is a failure of the
  stream, which the machine admits at any step.
* Sorting and `std::map` iteration are proved for every total order on keys.
* A lookup of a header that occurs more than once finds the first occurrence.

Where the code and its own documentation disagree, the model follows the code:

* `prv/remsvc_provider/triggers/remsvc.py:176-180` and `267-270` take a zero `sent_ref` to mean that no write
  reached the server. A first write can be delivered before it returns. `Trigger.DuplicateRun` gives runs
  in which the first command is executed twice, and `Trigger.AtMostOnceIffSafeToRetry` gives the exact
  condition under which no command ever is.
* `src/server/ServerConfig.cc:14` says that empty variable names are left unexpanded; `${}` becomes `$`.
* `doc/diagram-remcmdstrm-tid-correlation.md:30` shows replies overtaking each other; this server answers
  in the order in which it reads.

## Model

| member | source | states |
|---|---|---|
| `Gf2.RemainderUnique` | src/common/Hash.cc:11-27 | division by a polynomial of degree n leaves at most one remainder, so "the CRC" is well defined |
| `Gf2.EqualRemaindersIffDivides` | src/common/Hash.cc:24-27 | two dividends have one remainder exactly when the generator divides their sum |
| `Crc.StepLinear` | src/common/Hash.cc:18 | one shift of the register is linear over GF(2) |
| `Crc.StepInvertible` | src/common/Hash.cc:18 | one shift of the register can be undone, in both directions |
| `Crc.FeedWord` | src/common/Hash.cc:24-26 | feeding up to 32 bits one by one is adding them to the register and shifting |
| `Crc.LookupIsEightBits` | src/common/Hash.cc:26 | eight steps applied to the table index, combined with the register shifted by eight, are eight single-bit steps |
| `Crc.StepIsTimesX` | src/common/Hash.cc:18 | a shift multiplies the register's polynomial by x and removes the generator exactly when x^32 appears |
| `Crc.FeedbackIsGenerator` | src/common/Hash.cc:11-18 | the constant 0xEDB88320, read reflected, is the V.42 generator without its leading term |
| `Crc.FeedIsRemainder` | src/common/Hash.cc:24-27 | from any initial value, the register after a message is the remainder of x^32 times the message plus the shifted initial value |
| `Crc.CrcIsRemainder` | src/common/Hash.cc:11-27 | a polynomial is that remainder for the all-ones start if and only if it is the complemented checksum |
| `Crc.CollideIffDivides` | src/common/Hash.cc:24-27 | commands of one length have one checksum if and only if the generator divides the polynomial of their difference |
| `Crc.BurstDetected` | src/common/Hash.cc:24-27 | commands of one length that differ only within 32 consecutive bits have different checksums |
| `Crc.LongerBurstUndetected` | src/common/Hash.cc:24-27 | 32 is the limit: two strings that differ within 33 consecutive bits and have one checksum |
| `Crc.CrcAffine` | src/common/Hash.cc:24-27 | crc(a+b+c) = crc(a)+crc(b)+crc(c) over GF(2) on strings of one length |
| `Hash.TableEntry` | src/common/Hash.cc:15-19 | the inner loop leaves eight single-bit steps of its index |
| `Hash.BuildTable` | src/common/Hash.cc:13-22 | all 256 entries are eight single-bit steps of their index |
| `Hash.Advance` | src/common/Hash.cc:26 | one turn of the byte loop feeds the eight bits of a byte, least significant first |
| `Hash.Crc32Hex` | src/common/Hash.cc:9-32 | the table-driven loop on 32-bit words prints, for every byte string, eight lowercase hexadecimal digits of the number whose complement is the remainder that defines the checksum |
| `Hash.OnlyHashTextPrintsCrc` | src/common/Hash.cc:9-32 | one text only is such a print |
| `Hash.PrintsNumber` | src/common/Hash.cc:29-31 | the digits, read base 16 with the most significant first, give the sum of 2^i over the set bits i of the register |
| `Hash.ParsePrinted` | src/common/Hash.cc:29-31 | reading back the printed digits gives the register |
| `Hash.PrintParsed` | src/common/Hash.cc:29-31 | any text that can be read is the one printed for what was read |
| `Hash.HashTextInjective` | src/server/RemSvcServiceImpl.cc:349-350 | the string test on hashes holds if and only if the checksums are equal |
| `Service.RemSvcServiceImpl.constructor` | src/server/RemSvcServiceImpl.cc:158-221 | an invalid pattern in either list turns on deny-all and clears that list; a valid list is compiled whole |
| `Service.RemSvcServiceImpl.CheckAllowed` | src/server/RemSvcServiceImpl.cc:224-238 | the loops over the compiled lists permit a command if and only if all configured patterns are valid, no deny pattern matches, and the allowlist is empty or one matches |
| `Service.DenyMonotone` | src/server/RemSvcServiceImpl.cc:199-214 | more deny patterns, valid or not, never permit more |
| `Service.AllowMonotone` | src/server/RemSvcServiceImpl.cc:176-191 | more valid patterns in a non-empty allowlist never permit less |
| `Service.RemSvcServiceImpl.Refuse` | src/server/RemSvcServiceImpl.cc:278-292 | the policy is asked before the hash; a request passes if and only if its command is permitted and its hash is empty or reads as the checksum |
| `Service.RefusalMeans` | src/server/RemSvcServiceImpl.cc:278-292 | for every request, whatever its hash: denied if and only if not permitted, a mismatch if and only if permitted with a hash that is neither empty nor the checksum |
| `Service.DenialMeans` | src/server/RemSvcServiceImpl.cc:224-238 | the reason for a denial: invalid patterns, a deny match, or no allow match, in this order |
| `Service.RemSvcServiceImpl.RemCmd` | src/server/RemSvcServiceImpl.cc:268-309 | a request that is not admitted calls no runner and counts nothing; an admitted one runs once, as asked, and is answered with its tid and hash, the return code, and each output whole or cut at 256 KiB with the marker |
| `Service.RemSvcServiceImpl.ProcessStream` | src/server/RemSvcServiceImpl.cc:331-375 | the first requests are admitted, run in order as asked, counted and answered one by one; the first that is not admitted ends the stream with its status, and nothing after it runs |
| `Service.ServeAllClosedForm` | src/server/RemSvcServiceImpl.cc:334-374 | if request k is the first refused, exactly the earlier ones run, in order, each gets its reply, and the status is that of k |
| `Service.UnalteredPasses` | src/client/RemSvcClient.cc:176 | a command hashed by a client is never refused for its hash |
| `Service.GateIsDivisibility` | src/server/RemSvcServiceImpl.cc:285-292 | a permitted command altered without changing its length is refused if and only if the generator does not divide the altered bits |
| `Service.BurstRefused` | src/server/RemSvcServiceImpl.cc:279-292 | a command damaged by a burst of up to 32 bits is always refused |
| `Service.BurstStopsStream` | src/server/RemSvcServiceImpl.cc:342-356 | in a stream neither the damaged command nor any after it is run |
| `Stream.Correlated` | prv/remsvc_provider/triggers/remsvc.py:286-330 | in every interleaving with any losses and faults: commands run are a prefix of those sent, replies read a prefix of those not lost, results holds exactly the first n commands but the lost ones, and results[t] is what the runner made of command t, with its text |
| `Stream.CorrelatedWithoutLoss` | prv/remsvc_provider/triggers/remsvc.py:308-330 | while no reply is lost, the replies read are the first ones and the result keys are 1 up to their number |
| `Stream.FaultsAnywhere` | prv/remsvc_provider/triggers/remsvc.py:190-256 | a stream can fail in any way at any time before its end, and any reply can be lost |
| `Stream.StepDecreases` | prv/remsvc_provider/triggers/remsvc.py:336 | a measure falls at every step of any party |
| `Stream.ConcurrentStuckFree` | prv/remsvc_provider/triggers/remsvc.py:336 | the concurrent client never deadlocks, whatever N, the capacities and the losses, and no run is longer than 5N+3 |
| `Stream.WriteThenReadStuckFreeIffFits` | src/client/RemSvcClient.cc:170-193 | the client that writes first is deadlock-free if and only if N fits both capacities and one, or a refusal comes before the replies fill their channel |
| `Stream.WriteThenReadEndsIffFits` | src/client/RemSvcClient.cc:170-193 | where they do not fit, no run without faults ever ends, whatever the schedule; where they fit, every run that can go no further has ended |
| `Stream.FaultFreeEnding` | src/server/RemSvcServiceImpl.cc:334-374 | without faults a stream completes if and only if nothing is refused, and otherwise fails with the status of the first refusal after exactly the commands before it ran |
| `Trigger.SuccessIffAllSucceed` | prv/remsvc_provider/triggers/remsvc.py:338-363 | a fault-free attempt yields SUCCESS if and only if every command is permitted and returned zero; "No response" never happens and nothing is retried |
| `Trigger.SuccessIsSoundAndComplete` | prv/remsvc_provider/triggers/remsvc.py:175-256 | over all retries, losses and faults: SUCCESS if and only if the last attempt's stream completed, lost nothing and every command returned zero, and then it ran every command once, in order, with exactly their results; "No response" names exactly the lost replies |
| `Trigger.OnlyTransientIsRetried` | prv/remsvc_provider/triggers/remsvc.py:203-256 | over all runs: earlier attempts ended with UNAVAILABLE or RESOURCE_EXHAUSTED before a write had returned, and the event reports on an attempt that did not, or was the last |
| `Trigger.AnalyseMeans` | prv/remsvc_provider/triggers/remsvc.py:340-363 | the report names exactly the tids without a response, else exactly those with a non-zero code, else it is SUCCESS; the results go with it |
| `Trigger.ExecutionCounts` | prv/remsvc_provider/triggers/remsvc.py:175-234 | over all runs, with the messages of failed attempts delivered at any later time: tid 2 and up execute at most once, tid 1 at most once an attempt, all at most once where retrying is safe, and only what the client numbered is executed |
| `Trigger.DuplicateRun` | prv/remsvc_provider/triggers/remsvc.py:302-303 | for every environment where retrying is not safe, runs that execute tid 1 twice, with the first delivery before the retry and after it |
| `Trigger.AtMostOnceIffSafeToRetry` | prv/remsvc_provider/triggers/remsvc.py:203-234 | no run executes a command twice if and only if writes are delivered only after they return, or there is one attempt, or the first command is refused |
| `Trigger.OneEventAlways` | prv/remsvc_provider/triggers/remsvc.py:175-256 | every run is bounded and, until it has yielded its event, can go on without a fault |
| `Trigger.RunTrigger` | prv/remsvc_provider/triggers/remsvc.py:150-256 | exactly one event, that of the first attempt that does not end with one of the two transient codes before any write returned, or of the last allowed; what it reports in each case, and the time it takes |
| `Trigger.TimeBound` | prv/remsvc_provider/triggers/remsvc.py:227-233 | n attempts of at most T take at most nT plus the pauses |
| `Trigger.DefaultDelays` | prv/remsvc_provider/triggers/remsvc.py:227-233 | the pauses are 1, 2, 4, 8 and then always 16 seconds |
| `Trigger.DefaultElapsed` | prv/remsvc_provider/triggers/remsvc.py:227-233 | the time of one, two and three attempts is exactly theirs and the pauses between them |
| `Trigger.DefaultTimeBound` | prv/remsvc_provider/triggers/remsvc.py:54-56 | with the constants of the source that is 3T+3 seconds |
| `Trigger.DefaultTimeBoundIsMet` | prv/remsvc_provider/triggers/remsvc.py:54-56 | and no less, when every attempt takes T |
| `Operator.HandlerListsInOrder` | prv/remsvc_provider/operators/remsvc.py:242-246 | for keys 1..N the default handler yields N entries, the i-th for tid i |
| `Operator.XComMatchesCommands` | prv/remsvc_provider/operators/remsvc.py:209-235 | over all retries and faults, SUCCESS and nothing else reaches XCom, with entries that match the commands one by one; any other event raises with its state and detail |
| `Client.ProviderSucceedsIff` | prv/remsvc_provider/triggers/remsvc.py:291-363 | provider against a server with a policy: SUCCESS if and only if every command is permitted by it and returns zero |
| `Client.MachineServesLikeProcessStream` | src/server/RemSvcServiceImpl.cc:331-375 | the step machine's server makes the calls and replies of the sequential stream loop |
| `Client.ProcessStreamIsARun` | src/server/RemSvcServiceImpl.cc:331-375 | conversely, whatever the sequential loop does is done in some run of the machine |
| `Client.MessagesCarry` | prv/remsvc_provider/triggers/remsvc.py:292-301 | message i carries what command i says, the tid i and the printed checksum |
| `Client.DoRemCmdStrm` | src/client/RemSvcClient.cc:160-202 | writes a prefix of the commands, each with its type, user, number and printed checksum, cut short only by the first failed write; reads every answer; zero if and only if OK |
| `EnvExpand.NameCharsAre` | src/server/ServerConfig.cc:16-26 | a name consists of ASCII letters, digits and underscores |
| `EnvExpand.TokensPartition` | src/server/ServerConfig.cc:21-72 | tokens partition the text, every '$' starts one, and expansion renders them one by one |
| `EnvExpand.ExpandConcat` | src/server/ServerConfig.cc:16-75 | expand(a+b) = expand(a)+expand(b) when b cannot continue a token of a (it starts with '$', say) or a has no '$' |
| `EnvExpand.SubstitutedVerbatim` | src/server/ServerConfig.cc:61-63 | a value substituted for $NAME or ${NAME} is copied as it is, in any context: it is never scanned again |
| `EnvExpand.UnboundExpansion` | src/server/ServerConfig.cc:64-71 | with none of its names bound a text changes only where "${}" becomes "$" |
| `EnvExpand.ScanDollar` | src/server/ServerConfig.cc:28-71 | the index arithmetic at a '$' finds exactly the next token and its rendering |
| `EnvExpand.ExpandEnvVars` | src/server/ServerConfig.cc:16-75 | the scanner computes the token-wise expansion, for every text and environment |
| `ServerConfig.LoadServerConfig` | src/server/ServerConfig.cc:79-178 | the in-place load sets every field from its own key or section, and only from it: numbers and flags converted, paths and tokens expanded, lists and tokens replaced whole; an error names the number that is out of range and leaves the other groups' fields alone |
| `ServerConfig.LoadTwoFiles` | src/server/ServerConfig.cc:79-178 | loading one file and then another has the error, the port and the timeout of loading the merged file, and without an error all of its settings: keys one by one, lists and tokens whole |
| `ServerConfig.LoadedIsValidAndStable` | src/server/ServerConfig.cc:88-99 | success means port in 1..65535 and a positive timeout, and a second load changes nothing |
| `ServerConfig.FailedLoadKeepsTheRest` | src/server/ServerConfig.cc:81-99 | a failed load changes at most the port and the timeout, and those only where the file has them |
| `ServerConfig.AbsentKeysKeepFields` | src/server/ServerConfig.cc:105-175 | absent keys and empty sections leave their fields alone |
| `ServerConfig.PresentSectionReplaces` | src/server/ServerConfig.cc:118-146 | a present pattern section replaces the list with the values of exactly those keys whose value is not empty, one for each, in key order |
| `ServerConfig.PresentAuthReplaces` | src/server/ServerConfig.cc:154-165 | a present [auth] section keeps exactly the entries whose expanded token is not empty |
| `Auth.BearerTokenAuthProcessor.constructor` | src/server/AuthInterceptor.cc:8-17 | the inverted map has exactly the configured non-empty tokens, each with the smallest identity that owns it |
| `Auth.ConstTimeEqual` | src/server/AuthInterceptor.cc:32-44 | the XOR/OR accumulation over all bytes is equality |
| `Auth.BearerTokenAuthProcessor.FullScan` | src/server/AuthInterceptor.cc:83-87 | the scan without early exit finds the stored identity if and only if the token is stored |
| `Auth.BearerTokenAuthProcessor.Process` | src/server/AuthInterceptor.cc:47-109 | the decision in terms of the configuration; an accepted call is stamped and its header consumed, any other leaves both untouched |
| `Auth.AcceptsExactly` | src/server/AuthInterceptor.cc:53-99 | a call gets through if and only if no non-empty token is configured or its header is "Bearer " and a configured one |
| `Auth.RejectsExactly` | src/server/AuthInterceptor.cc:58-91 | every other call is turned away for the first reason that applies: no header, another scheme, a token that is not configured |
| `Auth.AuthorizationInAnyCase` | prv/remsvc_provider/triggers/remsvc.py:405-408 | an operator entry counts as an authorization entry if and only if its key spells the header, each letter in either case |
| `Auth.MetadataMeans` | prv/remsvc_provider/triggers/remsvc.py:400-409 | without a token the operator's entries go as they are; with one, those that are not authorization entries follow the connection's, in order |
| `Auth.MergedMetadata` | prv/remsvc_provider/triggers/remsvc.py:393-409 | with a token configured the metadata has exactly one authorization entry, in any spelling of the key, from which the token reads back |
| `Auth.ProviderAuthenticates` | prv/remsvc_provider/hooks/remsvc.py:189-204 | the provider's calls pass a server that has its token, under the owner's identity, and no server that has only others |
| `ChannelPool.SameKeyIff` | prv/remsvc_provider/hooks/remsvc.py:81-84 | two calls share a key if and only if they agree on target, TLS and certificate, absent and empty being one |
| `ChannelPool.AsyncChannelPool.GetPooledChannel` | prv/remsvc_provider/hooks/remsvc.py:87-124 | the dictionary and the channel returned are those of the pool step |
| `ChannelPool.CallIsSound` | prv/remsvc_provider/hooks/remsvc.py:97-124 | a channel is created if and only if there is none for the key, or the one there was shut down or could not be asked; the channel returned was built for the key, and other entries are untouched |
| `ChannelPool.CreationsAreEvictionsPlusOne` | prv/remsvc_provider/hooks/remsvc.py:100-124 | over any calls, creations for a key are its evictions plus one once it is used |
| `ChannelPool.SameChannelBetweenEvictions` | prv/remsvc_provider/hooks/remsvc.py:100-108 | calls for a key between evictions return one channel |
| `Drain.RunInProcess` | src/server/RemSvcServiceImpl.cc:119-152 | for every schedule: a child that exits before the check after the last turn is seen to, promptly, and then out and err are exactly what it wrote, to the last byte; one that does not is given every turn before the deadline, out is untouched and the result is 1 |

## Left out

- `zlib.crc32` (`prv/remsvc_provider/operators/remsvc.py:74-75`) is not part of this model; the provider's hash is taken to be the same CRC, and a `str` command to be its UTF-8 bytes.
- gRPC, HTTP/2, TLS and Protobuf internals: a stream is two FIFO channels and a final status, and flow control appears only as their capacities.
- The int32 range of `tid` and `rc`: both are integers, so N is taken to fit int32.
- `std::regex`: validity and matching of patterns are abstract predicates.
- SHA-256 in the pool key: an injective function that never yields the empty string.
- QSettings: the INI is taken as parsed into groups; integer and boolean conversion are parameters.
- Process start, user switching and kill in `runInProcess`: only the drain loop is modelled, and its deadline is a bound on the number of turns.
- The early exits of `runInProcess` before the loop, `Ping`, `GetStatus` and all logging.
- The timing of `constTimeEqual`: only its functional result is stated.
- `execute`'s check for empty commands, Airflow's serialisation of the event and custom result handlers.
- The sorted rendering of tids in error texts: the events carry the sets of tids.
- Further writes of a failed attempt's orphaned writer task: excluded by the first premise above.
- UTF-8 validity of `out` and `err` and the decoding of replies: see the premises.
- The hook's cached connection and certificate, and the Airflow connection lookups.
- The Python command-line client, the command-line parsing, signal handling, build and installation.
