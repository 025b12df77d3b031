# Verified model of the obacht agent

The agent runs on a user's device. It receives mutations signed by the user, keeps
the desired state in a local table, and drives containers, compose projects and
systemd units towards that state. This project models the parts of it whose
correctness depends on more than one function, and proves what they promise:
over every input, every interleaving of its threads, or every run.

Go strings are byte sequences; they are modelled as strings of one character per
byte, and `Utf8` decodes them the way a range loop does. Code that mutates is
modelled by classes and methods with loops, proved against functions; the
theorems are lemmas about those functions and about state machines built from them.

| modules | what they model |
|---|---|
| `Utf8`, `Utf16Order`, `Jcs`, `JcsReader`, `DecodedJson` | the canonical printer of RFC 8785, its key order, a reader for what it prints, and the decoding of documents in wire order before it |
| `TypedMutation`, `NonceStore`, `SignedMutation`, `MachineInts` | the struct a mutation is unmarshalled into, envelope verification and the pruned nonce table, over runs of envelopes and clock readings |
| `SshWire` | the key format of RFC 4251, section 5, and RFC 8709, section 4, in uint32 arithmetic |
| `Instances`, `ApplyQueue`, `ApplyProtocol` | the reconcile pass, the apply worker and user writes as interleaved threads |
| `Convergence`, `Exclusivity` | the synchronous pass as a convergence function; exclusivity locks over runs |
| `GoStrings`, `UnitPolicy`, `UnitReader`, `UnitSoundness` | the unit policy, an independent reader for unit files, and when what the policy accepts is what the reader sees |
| `ManagedUnit`, `UnitAgreement`, `UnitCommands`, `UnitGrants` | the unit generator, which of its units the policy accepts, and what the reader finds in them |
| `ComposeEscape`, `ManifestSecrets` | escaping for compose files and the two readers that undo it; secret redaction and resolution |
| `Prober`, `ProberProtocol` | the readiness prober: its tables, and every interleaving of its runs |
| `PullProgress`, `ProgressThrottle` | the aggregated pull percent; the event throttle with its swept map |

Where the code and its own words disagree, the code is followed:

- `internal/store/nonces.go:15-17` says a nonce is fresh exactly once. Pruning makes
  it fresh again (`NonceStore.NonceIsFreshTwice`). What does hold is stated per
  mutation in `SignedMutation.MutationSafeIff` and per signed text in
  `SignedMutation.TextSafeIff`.
- `internal/signedmut/envelope.go:23-25` signs the decoded tree, while line 168 unmarshals
  the struct from the bytes: keys match up to case, the last member counts, and a null
  leaves a field as it is. `TypedMutation.TreeFixesMutationIff` says for which trees the
  signed text still determines the mutation. The cap on the lifetime needs timestamps that
  are not null (`SignedMutation.TimestampsAreSafeIff`), and so does replay safety per
  mutation; per signed text it needs accepted trees that fix nonce, iat and exp.
- `internal/reconciler/loop.go:260-263` says an Apply and a Remove never run
  concurrently for one instance. Orphan collection does not consult the worker, so
  this holds for exactly the users that never hard-delete a row and never change its
  runtime kind (`ApplyProtocol.NoOverlapIffSoft`).
- `internal/runtime/system/spec.go:447-452` and `internal/reconciler/loop.go:948-963` tear a
  system instance down by the flavor its config names then. On linux the unit in place can
  be of the flavor an earlier config named; it stays, without its lock. So a group is never
  shared for exactly the users that also never turn a kiosk into another system instance
  or the reverse, an empty or unreadable config included (`Exclusivity.ExclusiveIffSteady`).
- `internal/unitpolicy/policy.go:6-14` means an accepted unit to have the generator's exact
  shape. The policy splits lists at all white space and ends lines at line feeds only;
  for a reader that splits at blanks and ends lines at carriage returns too,
  `UnitSoundness.AcceptedIsHardenedIff` says exactly which accepted units are as meant.
- `internal/runtime/system/managed.go:27-30` says the generated unit always passes the
  policy. A valid spec can be refused for its arguments, its environment, its instance
  id or its size, and for nothing else (`UnitAgreement.GeneratedUnitConformsIff`).
- `internal/readiness/probe.go:54-56` keeps a replaced run from clearing its successor's
  registration, and that holds (`ProberProtocol.RegistrationEndsOnlyBy`); it can still
  write a state over its successor's, exactly as `ProberProtocol.StaleWriteIff` says.

## Model

| member | source | states |
|---|---|---|
| Utf8.RunesOfEncode | internal/signedmut/jcs.go:128-151 | Encoding any scalar values gives valid UTF-8 whose range loop visits exactly those values. |
| Utf8.LossyIsIdentityIffValid | internal/signedmut/jcs.go:155-163 | A range loop that writes its runes back reproduces a string exactly when the string is valid UTF-8, which is why invalid strings are refused. |
| Utf8.RunewiseIsBytewise | internal/signedmut/jcs.go:126-153 | Escaping rune by rune is escaping byte by byte for every table that leaves non-ASCII alone. |
| Utf16Order.KeyLess | internal/signedmut/jcs.go:109-117 | The comparator decides the lexicographic order of UTF-16 code units: less exactly if the sequences agree up to a place where the first ends or is smaller. |
| Utf16Order.StrictTotalOrder | internal/signedmut/jcs.go:105-118 | The comparator is irreflexive, transitive and asymmetric on all strings, and total on valid ones. |
| Utf16Order.OrderDiffersFromCodePoints | internal/signedmut/jcs.go:105-107 | U+10000 sorts before U+E000, against their code-point order. |
| Utf16Order.SortUtf16 | internal/signedmut/jcs.go:108-118 | The slice ends up sorted by the comparator and holds the same keys. |
| Utf16Order.SortForgetsEnumeration | internal/signedmut/jcs.go:77-81 | For valid keys the sorted list is the same whatever order the map enumerates them in. |
| Jcs.WriteJcsString | internal/signedmut/jcs.go:126-153 | Appends the quoted string, escaped by the table of RFC 8785, section 3.2.2.2, to the shared builder; the reader of `JcsReader` takes no other spelling. |
| Jcs.WriteCanonical | internal/signedmut/jcs.go:45-101 | Succeeds exactly on printable trees (safe integers, valid UTF-8 in values and keys) and appends their canonical text, independent of map order. |
| Jcs.Canonicalize | internal/signedmut/jcs.go:37-43 | Returns the canonical text of a tree, or refuses it, for exactly the printable trees. |
| JcsReader.ReadInvertsPrint | internal/signedmut/jcs.go:45-153 | Reading the canonical text of any accepted tree, followed by anything but a digit, gives back that tree and that rest. |
| JcsReader.ReadsExactlyCanonical | internal/signedmut/jcs.go:37-153 | A reader that refuses every other spelling (needless escapes, leading zeros, -0, blanks, keys out of order or repeated) reads a text as a given tree exactly when it is that tree's canonical text. |
| JcsReader.CanonicalTextIsInjective | internal/signedmut/jcs.go:28-43 | Two accepted trees have equal canonical text exactly when they are equal. |
| DecodedJson.DecodeJson | internal/signedmut/envelope.go:210-222 | Decodes a document in wire order, the last of the members with one key counting, to the tree that is signed, or refuses it. |
| DecodedJson.Normalize | internal/signedmut/envelope.go:224-253 | Refuses a document exactly when some number in it is not an int64 integer literal, and otherwise replaces each number by its value. |
| DecodedJson.LiteralPassesIff | internal/signedmut/envelope.go:226-231 | A number of RFC 8259, section 6, passes as i exactly when it is written as the decimal form of the int64 i, or as -0 for zero; a fraction or an exponent never passes. |
| DecodedJson.NormalizeUndoesSpelling | internal/signedmut/envelope.go:207-222 | Every tree the printer accepts is decoded back unchanged from the document it prints as. |
| DecodedJson.SignedTextForgetsSpelling | internal/signedmut/envelope.go:23-25 | Two decoded documents have the same signed text exactly when they hold the same values, member by member and element by element, numbers compared by value. |
| NonceStore.Store.CheckAndMarkNonce | internal/store/nonces.go:19-38 | One call's effect on the table and its answer, for every combination of statement failures: insert if absent, then prune rows older than 24 h; seen exactly if the nonce had a row, failed exactly if it is empty or the insert fails. |
| NonceStore.FreshIffEarlierMarksPruned | internal/store/nonces.go:15-38 | From any table, over any run of calls whose statements may fail, a nonce is fresh exactly when the store takes it and every mark it had, from before the run or from an acceptance in it, has been pruned. |
| NonceStore.NonceIsFreshTwice | internal/store/nonces.go:15-17 | A nonce accepted at t is accepted again 86401 s later, even by a clock that never steps back. |
| SignedMutation.Verifier.Match | internal/signedmut/envelope.go:142-151 | Finds the first pinned key with the signer's bytes, or none if no key has them. |
| SignedMutation.Verifier.Verify | internal/signedmut/envelope.go:119-205 | The outcome and the nonce table after one call: the first failing check decides, only an envelope that passes them all reaches the nonce table, and an accepted mutation is attributed to the first pinned key with the signer's bytes. |
| SignedMutation.PassedIffGenuine | internal/signedmut/envelope.go:120-193 | The checks before the replay check pass exactly for an envelope that is within size, signed by a pinned key over its canonical text, unmarshals to a version 1 mutation for this device, and is within its time window in unbounded integers, a lifetime of 2^63 s or more included because it wraps around. |
| SignedMutation.RejectedFor | internal/signedmut/envelope.go:120-193 | What each reason means: untrusted exactly if no pinned key is the signer's, a bad signature exactly if the check refuses the canonical text, and, of a signed mutation in order, the wrong device, a start more than 30 s ahead or an end that has passed. |
| SignedMutation.AcceptedIsAttributed | internal/signedmut/envelope.go:142-204 | Over every run, an accepted mutation is attributed to the first pinned key with the signer's bytes. |
| TypedMutation.EveryFieldIsFilled | internal/signedmut/envelope.go:33-42 | Each field of the struct is what the last member of its own key says that is not null, and zero without one; params is its last member as written. |
| TypedMutation.KeysFold | internal/signedmut/envelope.go:166-169 | Keys match their field up to ASCII case, and no further in ASCII. |
| TypedMutation.TwoMoreLettersFold | internal/signedmut/envelope.go:166-169 | Beyond ASCII the long s matches s and the Kelvin sign k. |
| TypedMutation.TreeFixesMutationIff | internal/signedmut/envelope.go:153-169 | All documents signed as one tree that unmarshal give one mutation exactly when, for each field, the keys that name it up to case hold one value, and that value is not null (params may be null). |
| TypedMutation.OrderDecidesTheOperation | internal/signedmut/envelope.go:166-169 | Two documents with one tree, hence one signed text, that unmarshal to different operations: members "op" and "Op" in two orders. |
| SignedMutation.TimestampsAreSafeIff | internal/signedmut/envelope.go:183-193 | The safe-integer check on a signed tree bounds iat and exp of every document signed as it, and so keeps exp-iat free of overflow, exactly when no key that names them is null. |
| SignedMutation.LifetimeIsCapped | internal/signedmut/envelope.go:191-193 | An envelope that passes with timestamps that are not null lives 600 s at most. |
| SignedMutation.LifetimeCanWrap | internal/signedmut/envelope.go:191-193 | With a null expiry an envelope can pass whose lifetime is 2^63 s or more. |
| SignedMutation.SignedTextNamesOneMutation | internal/signedmut/envelope.go:153-169 | Two envelopes that pass have the same signed text exactly when their trees are equal; and then, if that tree is unambiguous, they carry the same mutation. |
| SignedMutation.RejectedLeavesNoTrace | internal/signedmut/envelope.go:115-118 | Dropping an envelope that fails an earlier check from a run changes no later outcome: it burns no nonce. |
| SignedMutation.NotAgain | internal/signedmut/envelope.go:183-202 | From any table, in any run whose clock never steps back more than 85771 s, an accepted mutation (nonce, iat, exp) whose tree names no null timestamp is never accepted again, whatever else the run holds. |
| SignedMutation.NoMutationAcceptedTwice | internal/signedmut/envelope.go:183-202 | Over any such run no mutation is accepted twice, if no accepted tree has a null where it names iat or exp. |
| SignedMutation.NoTextAcceptedTwice | internal/signedmut/envelope.go:153-202 | Over any such run no signed text is accepted twice, if every accepted tree determines nonce, iat and exp. |
| SignedMutation.LargerRegressIsUnsafe | internal/store/nonces.go:33-36 | For every larger step back there is a run, its trees as clear as can be, that accepts one mutation twice, under one signed text. |
| SignedMutation.NullTimeIsUnsafe | internal/signedmut/envelope.go:191-202 | With a null expiry one mutation is accepted twice by a clock that never steps back: it outlives its mark in the nonce table. |
| SignedMutation.OpenNonceIsUnsafe | internal/signedmut/envelope.go:166-202 | With a null nonce one signed text is accepted twice by a clock that stands still. |
| SignedMutation.MutationSafeIff | internal/signedmut/envelope.go:69-73 | All runs with clock regress at most r accept no mutation twice exactly when r is at most 85771 and the accepted trees are held to timestamps that are not null. |
| SignedMutation.TextSafeIff | internal/signedmut/envelope.go:69-73 | All runs with clock regress at most r accept no signed text twice exactly when r is at most 85771 and the accepted trees are held to determine nonce, iat and exp. |
| SshWire.MarshalSshEd25519 | internal/signedmut/userkeys.go:114-125 | Produces the two length-prefixed fields of a key. |
| SshWire.KeyLayout | internal/signedmut/userkeys.go:103-125 | Byte by byte: lengths most significant byte first, the name ssh-ed25519, the key. |
| SshWire.FieldIsPrefix | internal/signedmut/userkeys.go:103-112 | A field that is read, re-encoded with its length and followed by the rest, is the buffer it was read from. |
| SshWire.ParseAcceptsExactlyMarshalledKeys | internal/signedmut/userkeys.go:83-100 | A wire blob parses to a key exactly when the key has 32 bytes and the blob is its marshalled form. |
| SshWire.PanicIffSumWraps | internal/signedmut/userkeys.go:107-111 | A slice goes out of range exactly when the length prefix is within four of 2^32 and passes the wrapped length check, which takes a buffer of at least 4 GiB. |
| SshWire.ParseNeverPanics | internal/signedmut/userkeys.go:83-112 | No wire blob shorter than 2^32 bytes makes the parser panic. |
| SshWire.LongBufferPanics | internal/signedmut/userkeys.go:108-111 | A buffer of 2^32+3 bytes starting with ff ff ff ff does. |
| ApplyQueue.Worker.WorkerBusyWith | internal/reconciler/loop.go:260-268 | True exactly for the active id and the ids in the queue, that is, when enqueueing the id would change nothing. |
| ApplyQueue.Worker.EnqueueApply | internal/reconciler/loop.go:337-356 | Appends the id once unless it is queued or active, marked as a first install exactly for the observed states "", "pending" and "installing"; offers the wake-up token; and says "queued" only for a first install behind other work. |
| ApplyQueue.Worker.TakeJob | internal/reconciler/loop.go:378-388 | Takes the oldest job, makes it active, and keeps the queue discipline. |
| ApplyQueue.Worker.FinishJob | internal/reconciler/loop.go:392-395 | The worker becomes idle; queue, pending set and discipline are unchanged. |
| ApplyQueue.Worker.ActiveWork | internal/reconciler/loop.go:246-258 | Reports exactly the queued first installs, each at its place in queue order, and the active one if it is a first install. |
| ApplyQueue.EnqueueKeepsDiscipline | internal/reconciler/loop.go:337-345 | Enqueueing keeps: pending set equals queued ids, no duplicates, no id both active and queued. |
| ApplyQueue.DequeueKeepsDiscipline | internal/reconciler/loop.go:378-388 | Dequeueing keeps the same discipline, starts the oldest id, and makes no other id busy. |
| ApplyProtocol.StepKeepsInv | internal/reconciler/loop.go:486-586 | Every step of pass, worker and soft, kind-keeping users keeps: each busy id has a non-system row and lies in the running pass's snapshot, no id under Remove is busy, and no wake-up is lost. |
| ApplyProtocol.SoftRunsAreSafe | internal/reconciler/loop.go:260-268 | In every interleaving with soft deletes and fixed kinds, whatever the drivers answer, Apply and Remove of one instance never overlap, a non-empty queue has its wake-up, jobs start in enqueue order, and the queue discipline holds. |
| ApplyProtocol.HardDeleteOverlaps | internal/ipc/server.go:456-471 | With hard deletes there is a run in which orphan collection removes the container being applied. |
| ApplyProtocol.KindChangeOverlaps | internal/reconciler/loop.go:948-974 | With kind changes there is such a run too, through the system branch, which has no busy check. |
| ApplyProtocol.NoOverlapIffSoft | internal/reconciler/loop.go:545-559 | Apply and Remove never overlap for exactly the policies that allow neither. |
| ApplyProtocol.CallsAreWanted | internal/reconciler/loop.go:421-448 | In every run, of whatever users: an Apply starts only for a row asking for that install at that moment, a Remove only for an entry that asks for none and is not busy, and a row goes only if its entry was removed and the deletion succeeded, or by a user. |
| ApplyProtocol.EveryEntryIsServed | internal/reconciler/loop.go:495-533 | No entry is forgotten: an install ends up queued or active, a stop or removal reaches the driver unless the worker is busy with it, and a removed row whose calls succeed is gone. |
| ApplyProtocol.WorkerStepDecreases | internal/reconciler/loop.go:370-410 | The worker takes only finitely many steps on its own. |
| ApplyProtocol.BlockedWorkerHasDrained | internal/reconciler/loop.go:370-382 | The worker blocks only with an empty queue, unless an enqueuer stands between its append and its kick. |
| ApplyProtocol.WorkerDrains | internal/reconciler/loop.go:370-410 | From every safe state the worker alone empties the queue, having started every enqueued id in order. |
| Convergence.Reconciler.DockerApply | internal/runtime/container/docker.go:447-492 | Ends with a running container of the wanted hash, and reports a change exactly when it was not so before. |
| Convergence.Reconciler.ApplyContainer | internal/reconciler/loop.go:615-686 | Container and row after an apply, and what is reported as a change: the state comes from the snapshot taken before it, a failing driver or secret leaves "error" and is reported only if it is new, an unreachable driver leaves at most "installing" and is not, success is reported exactly if something changed; no other row or container changes. |
| Convergence.Reconciler.ReconcileContainerDown | internal/reconciler/loop.go:853-881 | Stop and remove take the container away, remove also deletes the row, and both report exactly what changed; a failing Remove changes nothing and a failing delete keeps the row. |
| Convergence.Reconciler.RunOnce | internal/reconciler/loop.go:468-609 | Over container rows and with succeeding drivers, a whole pass, rows and orphans in any order, ends in the pointwise result and reports a change exactly when some row or orphan changes. |
| Convergence.FixpointIffConverged | internal/reconciler/loop.go:605-607 | A pass changes nothing and reports nothing exactly on converged worlds. |
| Convergence.ContainersSettleInOnePass | internal/reconciler/loop.go:495-559 | After one pass the containers are final: exactly those of installed rows, matching their specs. |
| Convergence.TwoPassesConverge | internal/reconciler/loop.go:297-302 | From any world, error states included, two passes with succeeding drivers converge: removed rows and orphans gone, installed rows observed installed, and a third pass changes and reports nothing. |
| Convergence.OnePassConvergesIff | internal/reconciler/loop.go:670-685 | One pass suffices exactly when no installed row's container was seen in a state other than running. |
| Convergence.OnePassIsNotEnough | internal/reconciler/loop.go:673-679 | A recreated container is still reported as exited after one pass. |
| Exclusivity.Store.TryAcquireLock | internal/store/locks.go:20-47 | Succeeds exactly for a group the instance already holds, or a free one whose insert works for an instance with a row; a refusal changes nothing, and no other group's holder changes. |
| Exclusivity.Store.ReleaseLocksForInstance | internal/store/locks.go:76-82 | A group stays locked exactly if another instance held it, and by that instance. |
| Exclusivity.Store.ReconcileSystem | internal/reconciler/loop.go:890-981 | One system entry's effect, for every combination of driver and store answers: the row goes exactly if it is to be removed and all calls succeed, and no other row changes; locks go with a removal that succeeds and others keep theirs; a refused or unreadable install changes nothing; Remove goes to the kiosk or the managed unit by the config alone; "converged" only with the unit in place and its group held. |
| Exclusivity.RowGoesIff | internal/reconciler/loop.go:864-880 | For every runtime alike, handling an entry deletes its row exactly if it is to be removed and the calls succeed, touches no other row, and leaves what other instances hold. |
| Exclusivity.RemovalIsComplete | internal/runtime/system/driver_linux.go:216-252 | If the row's flavor is that of the unit in place, Remove leaves the instance no unit at all. |
| Exclusivity.StepKeepsLocks | internal/reconciler/loop.go:903-974 | Every step of a pass and of steady users keeps: a unit in place holds its group's lock and belongs to a row Remove would route to it, and each entry still to be handled, however stale, agrees with its row on kind and flavor. |
| Exclusivity.SteadyRunsKeepLocks | internal/reconciler/loop.go:883-886 | Over every run with soft deletes, fixed kinds and fixed flavors, whatever the driver and the store answer, two instances of one group never have their units in place together. |
| Exclusivity.BreakingPolicyShares | internal/ipc/server.go:376-471 | With hard deletes, kind changes or flavor changes some run puts two units of one group in place. |
| Exclusivity.ExclusiveIffSteady | internal/store/locks.go:15-19 | Exclusivity holds over all runs for exactly the policies that allow none of the three. |
| GoStrings.SpaceIff | internal/unitpolicy/policy.go:312 | Byte by byte which strings start with white space: the encodings of Unicode's white space and nothing malformed. |
| GoStrings.FieldsAroundSpace | internal/unitpolicy/policy.go:312 | Splitting on white space treats the two sides of a space independently, malformed UTF-8 included. |
| GoStrings.LinesOfTerminated | internal/unitpolicy/policy.go:154 | Splitting newline-terminated lines gives them back, and an empty last one. |
| UnitPolicy.Validate | internal/unitpolicy/policy.go:136-213 | Accepts exactly the units whose lines are all readable, whose values are all allowed, in which only DeviceAllow and Environment repeat and nothing required is missing; a refusal names the first line at which that fails. |
| UnitPolicy.ValidNameIff | internal/unitpolicy/policy.go:67-75 | A name is accepted exactly if it is obacht-svc-, then 1 to 64 of a-z, 0-9 and '-' not starting with '-', then .service. |
| UnitPolicy.LineIff | internal/unitpolicy/policy.go:154-182 | What a line must be: blank, one of the three section headers, or letters, '=' and a value not ending in a backslash; comments, leading blanks and continuations are not taken. |
| UnitPolicy.CheckPresence | internal/unitpolicy/policy.go:196-212 | The counters decide completeness: every required directive, one non-empty ExecStart, one WantedBy, one Description. |
| UnitPolicy.IdIsInjective | internal/unitpolicy/policy.go:183 | The counter's key "section/key" names one section and one key. |
| UnitReader.AllowedIff | internal/unitpolicy/policy.go:215-335 | Key by key, a value is allowed exactly if it fits what the reader's side lets that setting be: one own directory below obacht-svc/, one of four device classes, a NAME=value without quoting or expansion, a listed group, family, restart rule or unit name, and so on. |
| UnitReader.ReadingsAgree | internal/unitpolicy/policy.go:154-194 | On any lines the policy can read, an independent reader of the unit file format finds exactly the policy's entries, their values stripped of blanks. |
| UnitReader.StripKeepsAllowed | internal/unitpolicy/policy.go:215-305 | Stripping an allowed value of its outer blanks leaves an allowed value; only a description can become empty. |
| UnitSoundness.SameLinesIff | internal/unitpolicy/policy.go:154-158 | The reader, which ends lines at line feeds and carriage returns, sees the policy's lines of text exactly when no such line holds a carriage return before its end. |
| UnitSoundness.ListInForceIff | internal/unitpolicy/policy.go:224-294 | A list the policy allows is one it would permit of the words the reader finds, exactly when it holds no white space but blanks. |
| UnitSoundness.AcceptedIsHardenedIff | internal/unitpolicy/policy.go:6-14 | Of an accepted unit the reader sees the policy's lines and finds it hardened (each of the seven directives once with its required value, one command below the binary root of plain words without "..", one WantedBy, one Description, every other setting fitting by the reader's own rules, no key beyond the list or, but for two, given twice) exactly when no line holds an inner carriage return and every list is split by blanks alone. |
| ManagedUnit.GenerateManagedUnit | internal/runtime/system/managed.go:32-103 | Returns the unit text exactly when the spec is valid and the policy accepts that text, which does not depend on the order the environment map is enumerated in. |
| ManagedUnit.ValidSpecIff | internal/runtime/system/spec.go:358-406 | Part by part what a valid spec says: the one allowed binary, a 64-digit lowercase hex digest, no archive or tgz, one-line arguments and variables, listed groups and devices, ports from 1 to 65535. |
| ManagedUnit.BinaryIsAddressed | internal/runtime/system/managed.go:19-24 | The binary lies below the root under its digest: two specs share a path exactly if they share the digest. |
| ManagedUnit.CleanNameStays | internal/runtime/system/managed.go:106-117 | A valid name of at most 64 bytes without control characters appears in the description as it is. |
| ManagedUnit.ControlsAreDropped | internal/runtime/system/managed.go:106-113 | Of any name only its own characters are kept, and no control character. |
| ManagedUnit.WriteService | internal/runtime/system/managed.go:46-90 | Appends the lines of the service section, devices, groups and environment from sorted copies. |
| ManagedUnit.EveryEnumerationSortsAlike | internal/runtime/system/managed.go:83-90 | Every enumeration of the environment keys sorts to the same list. |
| ManagedUnit.BytesAtMostMeans | internal/runtime/system/managed.go:64-87 | The order they sort in: the first differing byte decides, and a string comes before its extensions. |
| ManagedUnit.ArgvComesBackIff | internal/unitpolicy/policy.go:311-316 | The policy, splitting at white space, takes the command for the binary and the arguments exactly when each argument is one word to it. |
| UnitAgreement.ReadGenerated | internal/runtime/system/managed.go:41-93 | The policy reads a unit with the generated sections as exactly the entries it was written from; it cannot read it exactly when some value ends in a backslash. |
| UnitAgreement.ServiceAllowedIff | internal/unitpolicy/policy.go:232-295 | The service section passes exactly when every token of every argument and every environment entry does. |
| UnitAgreement.GeneratedKeysDiffer | internal/unitpolicy/policy.go:184-187 | No generated unit repeats a key it may not repeat, however many devices and environment entries it has. |
| UnitAgreement.GeneratedUnitConformsIff | internal/runtime/system/managed.go:26-31 | For every valid spec the policy accepts the generated unit exactly when the instance id fits the unit name, argument tokens and environment entries fit their patterns, and the text fits 16 KiB. |
| UnitCommands.ReaderArgvComesBackIff | internal/runtime/system/managed.go:49-53 | Splitting the command at blanks returns the binary and the arguments exactly when none is empty and none holds a blank. |
| UnitCommands.GeneratedUnitRunsItsArguments | internal/runtime/system/managed.go:26-53 | Of an accepted generated unit the reader sees the policy's lines and one command, whose words are the binary path and the words of the arguments, the arguments themselves exactly when each is one word to it; and the unit is hardened exactly when no argument holds white space other than blanks. |
| UnitGrants.GeneratedUnitGrants | internal/runtime/system/managed.go:41-93 | In an accepted generated unit the reader finds the spec's devices as their classes, its groups and its variables, no others of each, a state directory of its own, the three address families, Restart=always after 2 s, and the description; nothing else in the unit section but After. |
| UnitCommands.AcceptedArgumentCanBeMisread | internal/unitpolicy/policy.go:311-330 | An accepted generated unit the reader does not find hardened: an argument with a vertical tab in it. |
| UnitCommands.AcceptedDescriptionCanBeSplit | internal/unitpolicy/policy.go:219-223 | An accepted unit whose lines the reader sees differently: a carriage return in its description ends the line, the reader finds two descriptions, and the unit is not hardened. |
| UnitCommands.ValidSpecCanBeRefused | internal/runtime/system/managed.go:96-101 | A valid spec with the argument "$" has its unit refused. |
| ComposeEscape.YamlEscapeInner | internal/runtime/compose/compose.go:715-741 | Produces the escaped bytes of the value, malformed bytes replaced by U+FFFD. |
| ComposeEscape.EscapeTable | internal/runtime/compose/compose.go:715-741 | The spelling of each escape the table writes; every other byte from 0x20 up stays as it is. |
| ComposeEscape.CollapseUndoesDoubling | internal/runtime/compose/compose.go:743-747 | Collapsing "$$" undoes the doubling, for every value. |
| ComposeEscape.EscapeFactors | internal/runtime/compose/compose.go:715-747 | The one-pass table is dollar doubling followed by YAML escaping. |
| ComposeEscape.ScanEscaped | internal/runtime/compose/compose.go:707-741 | A scanner of double-quoted scalars (YAML 1.2.2, sections 5.7 and 7.3.1) reads the escaped text back and stops at the closing quote, never before. |
| ComposeEscape.EscapeRoundTrip | internal/runtime/compose/compose.go:707-741 | Unescaping and collapsing, in either order, give the value back and leave the rest of the file untouched; a YAML 1.1 scanner does so exactly when the value holds no U+0085, U+2028 or U+2029. |
| ComposeEscape.ValueComesBackIff | internal/runtime/compose/compose.go:715-741 | The very bytes come back exactly when the value is valid UTF-8 and, for YAML 1.1, free of those breaks. |
| ManifestSecrets.RedactedInputEcho | internal/manifest/secrets.go:132-170 | The echo exists exactly when there is a stored input and has its keys; the sentinel stands for exactly the non-empty values named by the marker list or, without one, found by the heuristic, and every other value is as stored. |
| ManifestSecrets.HasSecretSentinel | internal/manifest/secrets.go:80-87 | True exactly when some value is the sentinel. |
| ManifestSecrets.ResolveSecretSentinelsInput | internal/manifest/secrets.go:92-116 | Key by key: a sentinel becomes the stored value, or empty if there is none or it is a sentinel; everything else stays. |
| ManifestSecrets.EditedEchoResolves | internal/manifest/secrets.go:92-170 | Resolving an edited echo is the same edit of the stored input; without edits that is so exactly when nothing stored is the sentinel. |
| ManifestSecrets.ResolvedHoldsNoSentinel | internal/manifest/secrets.go:103-113 | A resolved config never holds the sentinel. |
| ManifestSecrets.EchoRevealsNoSecret | internal/manifest/secrets.go:118-131 | Two inputs have equal echoes exactly when they differ in nothing but the text of non-empty secrets. |
| Prober.Registry.Begin | internal/readiness/probe.go:151-166 | Registers the new run, cancels the run it replaces, and clears the counter and the cached address; an empty id is ignored. |
| Prober.Registry.Forget | internal/readiness/probe.go:175-186 | Cancels and unregisters the owner and clears the counter and the cached address. |
| Prober.Registry.MarkDone | internal/readiness/probe.go:227-233 | Unregisters the run only if it is still the registered one. |
| Prober.Registry.SteadyProbe | internal/readiness/probe.go:272-288 | The failure counter and the state to record after one steady probe: unhealthy from ready only at three failures, ready again at the first pass, any other state left alone. |
| Prober.FlapRule | internal/readiness/probe.go:235-240 | From ready, after any series of probes, an instance is unhealthy exactly when its last three probes failed. |
| Prober.RecoveryRule | internal/readiness/probe.go:235-240 | From unhealthy, with any counter, an instance is ready again from the first probe that passes on, and then follows the same rule. |
| ProberProtocol.StepKeepsOwnership | internal/readiness/probe.go:151-233 | Every step keeps: the registered runs are exactly the uncancelled ones that have not settled, each under its own instance. |
| ProberProtocol.OneOwner | internal/readiness/probe.go:151-233 | In every history at most one uncancelled run of an instance is starting it, it is the registered one, and a registered run has not finished. |
| ProberProtocol.RegistrationEndsOnlyBy | internal/readiness/probe.go:225-233 | A registration ends exactly by a Begin or Forget of its instance or by its own run settling; a replaced run never ends its successor's. |
| ProberProtocol.DoomedRecordsNothing | internal/readiness/probe.go:201-204 | A run cancelled before it passed its check records no outcome, ever. |
| ProberProtocol.OutcomeIsEarned | internal/readiness/probe.go:200-214 | In every history a run that is about to record an outcome had a probe before that passed, for ready, or failed past the deadline, for unhealthy, while it was not cancelled. |
| ProberProtocol.StateIsEarned | internal/readiness/probe.go:200-288 | In every history a recorded state changes only to starting by a run's start, to a run's earned outcome, to ready by a steady probe that passed, or to unhealthy by a steady failure after two others, other writers aside. |
| ProberProtocol.StaleWriteIff | internal/readiness/probe.go:202-214 | A run that passed its check changes the row of an instance it has lost exactly when the store takes the write, the row says something else, and a Begin or a Forget of the instance landed between that check and the write. |
| ProberProtocol.ReplacedRunCanStillWrite | internal/readiness/probe.go:205-208 | A history in which a replaced run writes over its successor's state. |
| ProberProtocol.ForgottenRunCanStillWrite | internal/readiness/probe.go:175-208 | A history in which a run makes a forgotten instance ready after its row was reset. |
| PullProgress.SumLayers | internal/runtime/container/docker.go:714-718 | The two int64 sums, in any map order, are the wrapped sums of all layers. |
| PullProgress.ConsumePullStream | internal/runtime/container/docker.go:659-729 | The reports of one pull, wrap-around included; none without an instance id. |
| PullProgress.OneReportEach | internal/runtime/container/docker.go:690-729 | One report for each download event that names a layer, and none for other events. |
| PullProgress.UnsizedLayer | internal/runtime/container/docker.go:690-713 | A layer counts nothing until an event announces its size. |
| PullProgress.SizedLayer | internal/runtime/container/docker.go:690-713 | Then it counts what its latest sizing event says, or its whole size once it has finished since. |
| PullProgress.ReportsNeverFall | internal/runtime/container/docker.go:666-669 | If the announced bytes fit an int64, no report is lower than an earlier one, whatever the layers claim; so none is indeterminate after one was not. |
| PullProgress.PercentMeansDownloaded | internal/runtime/container/docker.go:653-658 | For layers within their sizes every report lies in -1..100, and is 100 exactly when at some download event so far all announced bytes had been downloaded. |
| PullProgress.ReportIsShare | internal/runtime/container/docker.go:719-729 | For layers within their sizes a report is the downloaded share of the announced bytes in whole percents rounded down, or an earlier report that was higher, and -1 while nothing is announced. |
| ProgressThrottle.Throttle.Report | internal/sync/syncer.go:173-197 | Whether an event is emitted, and the map afterwards: the event is noted, entries at most ten minutes old are kept, and a map of more than 64 entries holds no others. |
| ProgressThrottle.Throttle.Sweep | internal/sync/syncer.go:190-196 | Deleting while ranging leaves exactly the entries at most ten minutes old. |
| ProgressThrottle.ThrottleFollowsHistory | internal/sync/syncer.go:166-168 | While the clock does not step back, the swept map emits exactly the events the full history of calls would. |
| ProgressThrottle.HeldBackIff | internal/sync/syncer.go:173-186 | While the clock does not step back, an event of a named instance on a live connection is held back exactly when the latest one sent for it is of the same phase and less than two seconds old and this is not 100%. |
| ProgressThrottle.UnheardIsSilent | internal/sync/syncer.go:170-176 | Nothing is sent without an instance or a connection. |
| ProgressThrottle.EventsAreSpaced | internal/sync/syncer.go:117-126 | Two emitted events of one instance and phase, with no other phase between, are two seconds apart unless the second is 100%. |
| ProgressThrottle.SweepNeedsAscendingTimes | internal/sync/syncer.go:188-196 | With the clock set back a swept map emits an event the unswept one would hold back. |

## Left out

- SignedMutation.Verifier.Verify: takes the envelope after JSON and base64 decoding, the mutation as its members in wire order; the parsers themselves, and keys of the outer envelope, are not modelled.
- SignedMutation.PassedIffGenuine: for clock readings at least 30 s below the largest int64, where now+30 does not wrap.
- SignedMutation.NoMutationAcceptedTwice: the signature check is an arbitrary function, and clock readings lie at least 30 s below the largest int64; so too for SignedMutation.NoTextAcceptedTwice.
- TypedMutation.TreeFixesMutationIff: folds case as far as it reaches ASCII letters, which is all that field names hold; params are compared by the tree they decode to, not by their bytes.
- Utf16Order.SortUtf16: an insertion sort stands in for the library's sort, which promises the same result.
- DecodedJson.Normalize: builds a new tree; the source rewrites its maps and slices in place.
- ManagedUnit.GenerateManagedUnit: the library sort is a function, and whether the download URL is allowed is an input; a refusal does not say which check failed.
- UnitPolicy.Validate: keeps the number of the first bad line, not the wording of the message.
- UnitSoundness.AcceptedIsHardenedIff: is relative to a reader that does not check encodings and, in commands, knows no quoting, which the permitted characters cannot express.
- Convergence.Reconciler.RunOnce: covers container rows; compose rows are left out because their Remove always reports a change.
- Convergence.Reconciler.ApplyContainer: registering services and starting readiness are left out, the store's writes succeed, and the drift key is the spec's hash.
- Convergence.Reconciler.ReconcileContainerDown: dropping secrets and resetting readiness are left out.
- ApplyProtocol.SoftRunsAreSafe: shutdown is left out; driver calls that fail are steps that change nothing.
- Exclusivity.SteadyRunsKeepLocks: models the linux driver, whose collection does nothing; the darwin driver removes by id whatever the flavor, and is left out. Handling one entry is one step, in which every store or driver call may fail.
- ProberProtocol.StaleWriteIff: the store's read and write inside one state change are one step, which may fail.
- PullProgress.ConsumePullStream: starts from decoded events; what follows an undecodable one is drained without reports.
- ProgressThrottle.Throttle.Report: the emission itself and its failure are left out.
- Docker, Caddy, systemd, launchd and HTTP calls: abstract operations or success inputs.
- SQLite: tables are maps changed in atomic steps.
- Cryptography and SHA-256: opaque functions.
- YAML, JSON and regular-expression libraries: patterns are predicates on characters.
- ManifestSecrets.RedactedInputEcho: the key heuristic is an arbitrary function.
- Template rendering beyond escaping: values that contain placeholders themselves are rewritten by later substitution.
- Image pinning, bind mounts, Caddyfile rendering, telemetry, inventory, configuration loading, the command line, IPC handlers, the WebSocket client and the file browser: mostly plumbing.
- Timers and readiness HTTP details: time and probe results are inputs.
