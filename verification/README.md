# CloudProxy in Dafny

CloudProxy builds trust in layers. A platform (a TPM or a software root) hosts
programs, a hosted program may itself host programs, and every layer can attest to
statements of the layers above it, seal data for them, and decide by policy what
they may do. This project models the parts of that design whose promises range over
unbounded chains, stacks, runs and messages, and proves the promises.

* `Auth`, `AuthCodec`, `AuthBuffer`, `AuthRoundTrip`, `AuthWire`: principals and
  formulas, and their binary form.
* `Attestation`, `ValidatedLayers`, `SaysLogic`, `HostStack`, `StackAnswers`:
  attestation chains and their validation, layer by layer, the says/speaksfor logic
  behind them, and stacks of hosts that issue them.
* `DatalogTranslation`, `Substitution`, `DatalogMeaning`, `DatalogExactness`,
  `DatalogGuard`, `Subprin`, `SubprinRules`: the compiler from policy formulas to Horn
  clauses, what both mean and exactly when they agree, the guard that keeps a rule list
  and an engine in step, the custom `subprin/3` predicate, and rules that use it.
* `Rollback`, `RollbackRuns`, `LowerHosts`, `Layers`, `TpmHost`: counters that protect
  sealed data against replay, over whole runs with restarts, crashes and replayed files;
  the TPM 2.0 and the software root, a host on top of each lower host, and joint runs
  of a host and its TPM.
* `Tpm2Encoding`, `RsaArea`, `PcrName`, `Derivation`: the TPM 2.0 wire format, RSA
  public areas, register names, key derivation and authenticated encryption.
* `LaunchBarrier`, `Framing`: the start-up protocol of the monitor's processors, and
  messages on a byte stream.

`dafny verify dfyconfig.toml` checks everything.

## How the model relates to the source

Code that computes values is modelled by functions. Code that changes fields, slices
or buffers is modelled by classes and methods with loops, each proved equal to a
specification function; the properties are then proved about those functions, for all
inputs and all runs. Beside the operations stand laws that spell out their results
without naming the functions they are computed by: the bytes of a format, the conditions
on an attestation's layers, the event of a run that a result goes back to.

Cryptography and protocol buffers stay abstract. They are function-valued fields
(`Crypto`, `Signer`, `Primitives`, `Cipher`), and a proof that needs a fact about
them, such as "signatures made with a key verify", states it as a hypothesis. Blobs
and protected tables of `Rollback` are symbolic: a blob is its content, and a
protected table opens under its own key only. `ProtectedOpensUnderItsKeys` says what
that asks of the keyed hash. Clocks, random keys, the outcome of file writes and the
answers of the lower host are parameters.

Where the documentation and the code disagree, the model follows the code:

* The comment on the datalog guard says that `Term says Pred(...)` is translated
  (go/tao/datalog_guard.go:69). The code refuses every `says` statement
  (go/tao/datalog_guard.go:512-522), and so does `TranslateStatement`.
* The same comment asks only that variables of G appear in F
  (go/tao/datalog_guard.go:47-48). The code asks it of every quantified variable
  (go/tao/datalog_guard.go:566-569), and so does `Supported`.
* `Clear` is documented to remove all rules. Its new engine also lacks the custom
  predicate that the constructors add (go/tao/datalog_guard.go:249-252 and 811). The
  model takes clauses for it to be refused while it is installed, and not afterwards.
* The reload relies on `assert` to skip rules the engine has
  (go/tao/datalog_guard.go:313-315), but `assert` looks at the rule list just dropped.
  `ReloadKeepsOldClauses` states what follows.
* `GetCounter` dereferences a nil table if the saved table cannot be opened
  (go/tao/linux_host.go:442-449). The model returns the error `Crash`.
* `RollbackProtectedSeal` raises the counter before it looks at the policy, so a
  refused seal also invalidates the previous blob (`SealRaisesItsCounter`).
* The Go `ReadString` reports a stream that ends right after a length as a clean end;
  the C++ `ReceiveString` reports it as an error. The contracts say so.

Rollback protection is tracked for each program and label. Such a pair lapses for one
of three causes, each an event of the run: its counter wraps around, the host starts
from scratch after the pair was sealed, or the host starts from the saved table while
the pair has been sealed since the last complete save.

Some promises hold only under a condition that the code does not enforce. They are
stated as if-and-only-if: `PcrNameRoundTrip`, `CellRoundTripIsExact`,
`HeaderStatesLength`, `RsaAreaRoundTrip`, `SafetyIsExact`, `TranslationIsExact`,
`ReloadKeepsOldClauses`, `ReviveIsExact`, `LatestBlobSurvivesOneMove`,
`TableSurvivesOverTpm`, `UnpackInvertsPack`, `AllMessagesArrive`,
`LaunchSucceedsUnlessInitFails`. Lemmas beside them show the failing families: `VariableInsidePrincipalIsLost`, `VariableInsideTailIsLost`,
`ForgettingRevivesOldBlobs`, `UnsavedSealRevivesThePrevious`, `WrapRevivesOldBlobs`,
`SettingBackRevives`, `TwoStartUpsForget`, `TableIsLostOverRoot`,
`TableIsLostOverLinuxHost`.

## Model

| member | source | states |
|---|---|---|
| `Attestations.QuoteCoversNamedRegisters` | go/tao/attestation.go:31-113 | a speaker named by a register list is accepted from a TPM signer iff the list is readable and the quote verifies over exactly those registers, however the name has been extended |
| `Attestations.ValidateAcceptsGoodChains` | go/tao/attestation.go:136-203 | validation of a chain of any length, as a recursion, accepts exactly the lists of links each of which authorises the next, and returns the outermost speaker and message; what makes a link is the next row |
| `ValidatedLayers.ValidateChecksEveryLayer` | go/tao/attestation.go:28-203 | an attestation is accepted iff every delegation parses, every layer has signer type key, tpm or tpm2 and a signature by its own key over its statement (for a TPM a quote over the registers in the speaker's name), the innermost speaker extends the name made of the signer's type and key hash, and each inner layer says that an extension of the outer signer speaks for its own speaker, which the outer speaker extends |
| `ValidatedLayers.RefusalsHaveTheirReason` | go/tao/attestation.go:28-203 | whatever error validation returns, some layer of the attestation is as that error says |
| `Attestations.ValidateTightensBounds` | go/tao/attestation.go:191-200 | the returned start and end are the latest start and earliest end found anywhere on the chain, missing only if missing everywhere |
| `Attestations.ValidateIntersectsWindows` | go/tao/attestation.go:191-200 | a time is in the returned window iff it is in the window of every link |
| `SaysLogic.ValidateIsSound` | go/tao/attestation.pb.go:49-82 | in every interpretation closed under the subprincipal, transitivity, hand-off, speaking and self rules that contains the signed statements, the returned speaker says the returned message throughout the returned window |
| `SaysLogic.GoodLinksAreSound` | go/tao/attestation.pb.go:72-82 | the same for a bare list of links, from the innermost outwards |
| `SaysLogic.ValidatedDelegationHolds` | go/tao/attestation.pb.go:41-47 | an accepted delegation makes the delegate speak for the delegator throughout the window |
| `SaysLogic.UndelegatedAcceptanceIsExact` | go/tao/attestation.go:154-159 | without a delegation, a genuinely signed statement whose window is not empty is accepted iff it holds throughout its window in every closed interpretation containing it |
| `HostStack.GeneratedIsGenuine` | go/tao/attestation.go:205-241 | round trip through generation: whatever statement a working key is asked to sign, the attestation carries a valid link from that key over the statement with its missing bounds filled in |
| `HostStack.RootAnswers` | go/tao/root_host.go:93-115 | if the key's signatures verify, a root host answers exactly the requests it allows, and each answer to a representable request validates to what was requested; `StackSpeaksForItsChildren` spells out both |
| `HostStack.DelegationValidates` | go/tao/tao_key_management.go:707-730 | over a host that answers its requests, fresh keys come with a delegation that validates to "self says key speaksfor self" |
| `HostStack.DelegatedKeysAnswer` | go/tao/tao_key_management.go:902-934 | keys with a delegation for the host's name let it answer within the bounds of that delegation whatever is below it now, so also keys read back after a restart |
| `HostStack.DelegatedAnswers` | go/tao/stacked_host.go:80-108 | a stacked host with fresh delegated keys answers like a root host, within the bounds of its delegation |
| `HostStack.KeylessAnswers` | go/tao/stacked_host.go:92-94 | a stacked host without a signing key answers through the host below |
| `HostStack.StackIsComplete` | go/tao/linux_host.go:52-118 | if all keys work and keys from disk still have the delegation for their host's name, a stack of any height, of hosts with fresh keys, with keys from disk and without keys, can be built, is named by the root and all extensions, and answers exactly the allowed requests with attestations that validate to issuer and message, within the bounds of its layers |
| `StackAnswers.StackSpeaksForItsChildren` | go/tao/stacked_host.go:80-108 | under the same hypotheses on keys, over a stack of any height, a request is answered iff its issuer extends the child's name: the root key's name followed by the extensions of the root, of every layer and of the child; the answer to a representable request validates to that issuer, or to the child if none is given, with the requested message, for exactly the times within the requested bounds, a year from now by default, and within those of the layers |
| `StackAnswers.OnlyTheRootEndorses` | go/tao/root_host.go:93-115 | the answer of a stack carries the root's certificate, if there is one, iff all layers are keyless, so that the root signs it; all other answers carry none |
| `HostStack.BinaryFormInverts` | go/tao/auth/binary.go:403-418 | the binary form below meets the hypothesis on codecs under which the stack was proved |
| `Auth.SubprinIsExtension` | go/tao/auth/ast.go:327-353 | one principal is at or below another iff it is the other with a list of extensions behind it |
| `Auth.CheckSubprin` | go/tao/auth/ast.go:327-353 | the loop over the extensions decides exactly that |
| `AuthRoundTrip.UnmarshalInvertsMarshal` | go/tao/auth/binary.go:70-571 | every formula with byte strings, 64-bit integers and 63-bit counts is unmarshalled from what it was marshalled to |
| `AuthRoundTrip.MarshalIsPrefixFree` | go/tao/auth/binary.go:70-217 | no two such formulas share their binary form, and none is the beginning of another's |
| `AuthWire.TermsOnTheWire` | go/tao/auth/binary.go:79-133 | the tag numbers and the order of the fields of every kind of term |
| `AuthWire.ExtensionsOnTheWire` | go/tao/auth/binary.go:93-109 | extensions are a tag, their number, and one after the other a tag, a name, the number of arguments and the arguments |
| `AuthWire.FormsOnTheWire` | go/tao/auth/binary.go:135-216 | the tag numbers and the order of the fields of every kind of formula |
| `AuthWire.VarintDigits` | go/tao/auth/buffer.go:35-40 | a varint is groups of seven bits, the low ones first, with the high bit on all bytes but the last, and no group too many |
| `AuthWire.IntegersOnTheWire` | go/tao/auth/buffer.go:35-40 | a negative integer is written as its two's complement, not zig-zag |
| `AuthWire.IntegersAreSixtyFourBits` | go/tao/auth/buffer.go:42-52 | whatever the input, an integer read off it has 64 bits |
| `AuthWire.TrailingBytesAreRefused` | go/tao/auth/binary.go:406-417 | a formula with anything behind it is refused |
| `AuthWire.OddFlags` | go/tao/auth/buffer.go:63-67 | a flag other than one reads as false |
| `AuthWire.NegativeCounts` | go/tao/auth/binary.go:242-322 | a negative number of extensions or conjuncts reads as none, and one of arguments fails |
| `AuthWire.UnknownTags` | go/tao/auth/binary.go:324-346 | a tag of no term or formula is refused |
| `AuthCodec.VarintReads` | go/tao/auth/buffer.go:35-52 | a 64-bit integer, negative ones included, is read back from its varint, and what follows is left |
| `AuthBuffer.Buffer.MarshalTerm` | go/tao/auth/binary.go:79-133 | appends the specified bytes of a term, in place, with loops over extensions and arguments |
| `AuthBuffer.Buffer.MarshalForm` | go/tao/auth/binary.go:135-216 | appends the specified bytes of a formula, in place |
| `AuthBuffer.MarshalElement` | go/tao/auth/binary.go:70-77 | a fresh buffer ends up with exactly the binary form of the formula |
| `AuthBuffer.Buffer.DecodeNameAndArgs` | go/tao/auth/binary.go:242-257 | the argument loop takes what the specification reads off the front of the buffer, or fails |
| `AuthBuffer.Buffer.UnmarshalTerm` | go/tao/auth/binary.go:324-346 | takes one term off the front of the buffer, or fails, for every buffer |
| `AuthBuffer.Buffer.UnmarshalForm` | go/tao/auth/binary.go:419-571 | takes one formula off the front of the buffer, or fails, for every buffer |
| `AuthBuffer.UnmarshalElement` | go/tao/auth/binary.go:406-417 | a whole buffer is one formula and nothing else |
| `PcrName.MakeTpm2Prin` | go/tao/tpm2_tao.go:205-233 | the two loops build the register extension from decimal numbers and hexadecimal values joined with commas |
| `PcrName.ExtractTpm2Pcrs` | go/tao/tpm2_tao.go:802-850 | the loop computes the specified extraction, with the error of the first failing check |
| `PcrName.ParseIntInvertsItoa` | go/tao/tpm2_tao.go:836-841 | a printed number is read back iff it fits sixteen signed bits, and contains no comma |
| `PcrName.HexDecodeInvertsHexEncode` | go/tao/tpm2_tao.go:843-847 | hexadecimal text decodes to the bytes it was made from, and contains no comma |
| `PcrName.SplitInvertsJoin` | go/tao/tpm2_tao.go:828-832 | for parts without commas, splitting undoes joining, except that the empty list comes back as one empty part |
| `PcrName.PcrNameRoundTrip` | go/tao/tpm2_tao.go:802-850 | extraction from a made name, however extended, returns the numbers and concatenated values iff the lists are readable, and an error otherwise |
| `PcrName.ExtractIsExact` | go/tao/tpm2_tao.go:802-850 | extraction succeeds iff the name has the wanted type and its first extension is "PCRs" of two strings that split into equally many numbers and values, all of which parse, and returns what they parse to; the errors for a wrong type, a missing extension and unequal counts are returned exactly then |
| `PcrName.JoinInvertsSplit` | go/tao/tpm2_tao.go:828-832 | splitting cuts at every comma and nowhere else |
| `PcrName.HexDigits` | go/tao/tpm2_tao.go:205-233 | each byte is printed as two lower-case hexadecimal digits, the high half first |
| `PcrName.HexDecodeAccepts` | go/tao/tpm2_tao.go:843-847 | exactly the texts of an even number of hexadecimal digits of either case are read |
| `PcrName.DecimalDigits` | go/tao/tpm2_tao.go:205-233 | numbers are printed in decimal, without leading zeros |
| `PcrName.ParseIntAccepts` | go/tao/tpm2_tao.go:836-841 | a number is an optional sign of either kind and digits, and fits sixteen bits |
| `PcrName.PrintedRegisters` | go/tao/tpm2_tao.go:205-233 | the printed extension of two registers, in full |
| `DatalogTranslation.SetRemove` | go/tao/datalog_guard.go:376-387 | the in-place swap removal deletes all and only the entries equal to the given one |
| `DatalogTranslation.CheckTermVarUsage` | go/tao/datalog_guard.go:436-469 | terms pass iff all their variables are quantified; if they pass, exactly those variables are marked as used |
| `DatalogTranslation.StmtToDatalog` | go/tao/datalog_guard.go:489-544 | the loop over the arguments computes the specified atom or error, and marks the variables it uses; `TranslationIsExact` says what the atom means and `RefusalsHaveTheirReason` when there is none |
| `DatalogTranslation.ConditionsToDatalog` | go/tao/datalog_guard.go:556-565 | if all conditions translate, the unused variables are exactly the quantified ones that occur in none of them |
| `DatalogTranslation.FormToDatalogRule` | go/tao/datalog_guard.go:547-578 | the imperative translation computes the specified clause or error; what they mean is in the rows of `TranslateAcceptsSupportedRules`, `TranslationIsExact` and `RefusalsHaveTheirReason` |
| `DatalogMeaning.PrefixMeaning` | go/tao/datalog_guard.go:389-406 | a quantified formula holds iff its matrix holds under every assignment of the stripped variables, repeated quantifiers included |
| `DatalogMeaning.FlattenMeaning` | go/tao/datalog_guard.go:408-420 | flattening nested and empty conjunctions keeps their truth |
| `DatalogMeaning.TranslateAcceptsSupportedRules` | go/tao/datalog_guard.go:547-578 | a rule is accepted iff its variables are upper-case, conditions and goal are predicates over bound variables, and every bound variable is used by a condition |
| `DatalogMeaning.RefusalsHaveTheirReason` | go/tao/datalog_guard.go:489-578 | a refused rule has a lower-case quantified variable, a statement with a variable that is not bound, a statement that is no predicate, or a quantified variable that no condition uses, as the error says |
| `DatalogMeaning.UsageCheckOverlooksTails` | go/tao/datalog_guard.go:436-469 | the usage check sees exactly the variables that occur outside tails, at any depth |
| `DatalogExactness.SafetyIsExact` | go/tao/datalog_guard.go:566-569 | for every accepted rule, the body of its clause covers the head iff each variable that is a whole argument of the goal is one of some condition |
| `DatalogExactness.TranslationIsExact` | go/tao/datalog_guard.go:489-578 | for every accepted rule, formula and clause agree in all models iff no variable of the prefix occurs inside a principal or a tail, or the goal is one of the conditions |
| `DatalogExactness.TranslationPreservesMeaning` | go/tao/datalog_guard.go:489-578 | under that condition a model, which says who says what and which terms `Subprin` relates, satisfies the formula iff it is closed under the clause |
| `DatalogExactness.BuryingLosesMeaning` | go/tao/datalog_guard.go:529-537 | otherwise there is a model closed under the clause that falsifies the formula |
| `DatalogExactness.VariableInsidePrincipalIsLost` | go/tao/datalog_guard.go:444-454 | a rule with a variable only inside a principal that is accepted, unsafe, and changes its meaning |
| `DatalogExactness.VariableInsideTailIsLost` | go/tao/datalog_guard.go:436-469 | a rule with a variable inside a tail, where the usage check does not look, that is accepted and safe, but changes its meaning |
| `DatalogExactness.UnquantifiedRulesAreKept` | go/tao/datalog_guard.go:547-578 | accepted rules without quantifiers keep their meaning, whatever variables their terms contain |
| `DatalogGuard.Guard.Find` | go/tao/datalog_guard.go:580-599 | finds the first listed rule with the same translation, or none |
| `DatalogGuard.Guard.Assert` | go/tao/datalog_guard.go:601-615 | changes list and engine together, or neither |
| `DatalogGuard.Guard.Retract` | go/tao/datalog_guard.go:617-631 | changes list and engine together, or neither |
| `DatalogGuard.Guard.Clear` | go/tao/datalog_guard.go:809-813 | empties list and engine and loses the custom predicate |
| `DatalogGuard.Guard.Reload` | go/tao/datalog_guard.go:313-327 | drops the list, keeps the engine, and asserts the rules of the file in order up to the first that does not parse or is refused |
| `DatalogGuard.AssertTakesEffect` | go/tao/datalog_guard.go:601-615 | a rule is accepted iff it translates and is listed already or does not define the custom predicate; then it is listed and in force; a refusal changes nothing |
| `DatalogGuard.RetractTakesEffect` | go/tao/datalog_guard.go:617-631 | a retraction succeeds iff the rule is listed and does not define the custom predicate; then it is neither listed nor in force and all other clauses stay; a failure changes nothing |
| `DatalogGuard.RetractUndoesAssert` | go/tao/datalog_guard.go:617-631 | while list and engine agree, retracting a rule just added restores the whole state |
| `DatalogGuard.GuardAnswers` | go/tao/datalog_guard.go:601-631 | after any run an unsupported rule is an error, a rule that concludes `Subprin` of three arguments is refused iff the guard was never cleared, every other rule is asserted, and one is retracted iff it is listed |
| `DatalogGuard.RunsSpareCustom` | go/tao/datalog_guard.go:99-105 | in every run the custom predicate is installed iff the guard was never cleared, and meanwhile no clause for it is in the engine |
| `DatalogGuard.ReloadKeepsOldClauses` | go/tao/datalog_guard.go:313-327 | a reload lists the longest loadable prefix of the file and adds it to the engine, succeeds iff that is the whole file, and leaves list and engine in agreement iff the prefix contains every clause the engine held |
| `DatalogGuard.RunsKeepRulesCovered` | go/tao/datalog_guard.go:580-631 | in every run, reloads included, listed rules are distinct and in force |
| `DatalogGuard.RunsWithoutReloadAgree` | go/tao/datalog_guard.go:580-631 | in every run without reloads the engine is exactly the translated list |
| `DatalogGuard.EngineMeansThePolicy` | go/tao/datalog_guard.go:57-73 | after any such run whose listed rules meet the exact condition for keeping their meaning, a model satisfies all listed formulas iff it is closed under all clauses in the engine |
| `DatalogGuard.EngineEnforcesTheList` | go/tao/datalog_guard.go:313-327 | after any run, reloads included, a model closed under everything in the engine satisfies every listed formula that keeps its meaning |
| `Subprin.SearchIsSound` | go/tao/datalog_guard.go:170-221 | every fact reported in any mode is true and fits the question |
| `Subprin.SearchModesAgree` | go/tao/datalog_guard.go:170-221 | the check finds all true facts, the decomposition exactly those with one extension, the composition exactly those within the length bound |
| `Subprin.FormLengthIsMax` | go/tao/datalog_guard.go:666-742 | the bound of a query is the length of the longest principal or tail written in it |
| `Subprin.ComposedPrincipalsAreBounded` | go/tao/datalog_guard.go:192-201 | no principal composed during a query is longer than the longest term of the query |
| `Subprin.CompositionIsBoundedByTheQuery` | go/tao/datalog_guard.go:192-201 | while a query runs, a principal is composed with a tail iff some principal in the query has as many extensions as the result, or some tail in it has more |
| `SubprinRules.ClausesConstrainSubprincipals` | go/tao/datalog_guard.go:523-541 | in models that read `Subprin` as the custom predicate does, the clause of a faithful rule is satisfied iff the rule holds with its `Subprin` statements read as: a principal, a prefix of it, and the non-empty rest |
| `SubprinRules.SubprincipalsInherit` | go/tao/datalog_guard.go:224-226 | so the rule `Subprin(P, O, E) and q(O) implies r(P)` is accepted, and its clause is satisfied iff r holds of every subprincipal of every principal of which q holds |
| `Rollback.UpdatedCounters` | go/tao/rollback.go:157-173 | an update sets one counter, leaves all others and keeps entries unique |
| `Rollback.RollbackCounterTable.LookupRollbackEntry` | go/tao/rollback.go:146-155 | the loop finds the first entry for the program and label |
| `Rollback.RollbackCounterTable.UpdateRollbackEntry` | go/tao/rollback.go:157-173 | appends or overwrites one entry of the table in place |
| `Rollback.LinuxHost.EnsureTable` | go/tao/linux_host.go:402-423 | loads the saved table, starts an empty one, or leaves none |
| `Rollback.LinuxHost.InitCounter` | go/tao/linux_host.go:398-437 | the new state of the host, including the lazy load |
| `Rollback.LinuxHost.GetCounter` | go/tao/linux_host.go:440-455 | the counter, or no counter, or the crash on a table that cannot be opened |
| `Rollback.LinuxHost.SaveHostRollbackTableWithNewKeys` | go/tao/rollback.go:111-144 | what reaches the two files for each way a save can fail |
| `Rollback.LinuxHost.RollbackProtectedSeal` | go/tao/linux_host.go:458-499 | the blob handed out and the whole new state, for a missing counter, an unsupported policy and each outcome of the save |
| `Rollback.LinuxHost.RollbackProtectedUnseal` | go/tao/linux_host.go:502-524 | the data or the reason for refusing it |
| `RollbackRuns.LoadedTableIsNewest` | go/tao/rollback.go:25-46 | a table that can be read is the one protected under the newest lower seal |
| `RollbackRuns.RunsKeepInv` | go/tao/linux_host.go:396-524 | in every run entries stay unique and labelled, memory accounts for every blob of a pair that has not lapsed, and the table protected under the newest lower seal for all but those sealed since it was saved |
| `RollbackRuns.TableAccounts` | go/tao/linux_host.go:396-524 | after every run, with any files put back, the table in memory accounts for every blob of a pair for which no event was a cause to lapse, and later blobs of it carry larger counters |
| `RollbackRuns.RestartsNeverLoadOldTables` | go/tao/linux_host.go:403-423 | after any run with saves, failed saves, restarts and files put back, loading yields the table of the newest lower seal or none |
| `RollbackRuns.OnlyTheLatestBlobUnseals` | go/tao/linux_host.go:501-524 | after every run, with any restarts, failed saves and files put back, an issued blob under policy "self" or "few" unseals only for its owner, and only if it is the last one issued for its program and label, unless an event was a wrap-around of that counter, a start from scratch after a seal, or a start from the saved table while the pair was unsaved |
| `RollbackRuns.ReviveIsExact` | go/tao/linux_host.go:427-436 | in every state of the host, a caller allowed to unseal a labelled blob can do so, at once or after initialising the counter, iff the table in use has not moved past the blob's counter |
| `RollbackRuns.SupersededBlobs` | go/tao/linux_host.go:396-524 | after every run a superseded blob comes back for its owner iff the table in use has not moved past it, and never without one of those three causes |
| `RollbackRuns.LapsedIffCause` | go/tao/linux_host.go:403-426 | a pair has lapsed after a run iff some event of the run was one of the three causes |
| `RollbackRuns.LapsesAreLosses` | go/tao/linux_host.go:403-426 | and for a cause: the table taken up fails to account for a blob of the pair iff the start was from scratch after a seal, or from the saved table while the pair was unsaved, in every run whose starts after a save read the saved table |
| `RollbackRuns.SteadyRunsNeverLapse` | go/tao/linux_host.go:403-423 | in every run whose saves complete, whose starts read the saved table once there is a blob, and without a wrap-around, no pair ever lapses, whatever files are put back in between |
| `RollbackRuns.UnsavedSealRevivesThePrevious` | go/tao/rollback.go:126-130 | if the lower host fails to seal the table keys the blob is handed out all the same, and after a restart the one before it unseals again |
| `RollbackRuns.WrapRevivesOldBlobs` | go/tao/linux_host.go:464-465 | the seal that takes a counter past its largest value makes every earlier blob of the pair revivable |
| `RollbackRuns.SealThenUnseal` | go/tao/linux_host.go:457-524 | a blob just sealed unseals to the same data and policy |
| `RollbackRuns.UnsealReturnsWhatWasSealed` | go/tao/linux_host.go:457-524 | after every run, a blob that unseals gives the data and policy of the very seal that handed it out, and is refused as not authorised iff the policy is not "any" and the caller is not the program of that seal |
| `RollbackRuns.EveryBlobIsHandedOut` | go/tao/linux_host.go:457-499 | every issued blob was handed out by one event of the run |
| `RollbackRuns.UnsealAnswers` | go/tao/linux_host.go:502-524 | the data or each refusal, by policy, owner, table and counter |
| `RollbackRuns.PartialSaves` | go/tao/rollback.go:111-144 | what a restarted host finds after a seal, for each way its save can end: the files of before, nothing, a table its key does not open, or the new table; and how many seals are unsaved |
| `RollbackRuns.UnreadableTable` | go/tao/linux_host.go:402-455 | asking for a counter crashes the host iff it has no table and the saved one does not open under the key given back; initialising a labelled counter then starts a table with just that counter |
| `RollbackRuns.SealRaisesItsCounter` | go/tao/linux_host.go:464-483 | a seal raises its own counter by one, from the largest 64-bit value to the smallest, even if the policy is then refused, and puts that value into the blob; exactly the policies self, few and any are accepted |
| `RollbackRuns.SealSurvivesRestart` | go/tao/linux_host.go:485-498 | after a complete save, a restarted host with untouched files and an answering lower host has its table back, and the new blob still unseals |
| `RollbackRuns.InitCounterTakesTheMaximum` | go/tao/linux_host.go:427-436 | initialising under a non-empty label leaves the larger of the old counter and the given value |
| `RollbackRuns.CountersNeverDecrease` | go/tao/linux_host.go:427-483 | with a table in memory, no event but a restart or a wrap-around lowers any counter |
| `RollbackRuns.ForgettingRevivesOldBlobs` | go/tao/linux_host.go:421-434 | a host without a table that cannot read the saved one lets the owner of any blob ever issued revive it, and the pair lapses |
| `RollbackRuns.AnyPolicyComparesTheCallersCounter` | go/tao/linux_host.go:515-521 | under policy "any" a labelled blob unseals iff the caller's own counter equals the blob's, and can be revived by anyone whose counter has not moved past it |
| `Tpm2Counter.Tpm2Tao.InitCounter` | go/tao/tpm2_tao.go:707-722 | one increment per start-up, not repeated if it fails |
| `Tpm2Counter.Tpm2Tao.RollbackProtectedSeal` | go/tao/tpm2_tao.go:743-777 | one or two increments by parity and the slot recorded, or how far the counter got when a command fails |
| `Tpm2Counter.Tpm2Tao.RollbackProtectedUnseal` | go/tao/tpm2_tao.go:779-799 | opens the counter and compares the recorded slot with the current one; `UnsealReturnsWhatWasSealed` says what comes back |
| `Tpm2Counter.SealRaisesSlotByOne` | go/tao/tpm2_tao.go:732-741 | a seal that succeeds raises the slot by exactly one whatever the parity and leaves the hardware value odd |
| `Tpm2Counter.RunsKeepInv` | go/tao/tpm2_tao.go:743-777 | in every run, failing commands included, slots of successive blobs strictly increase and the hardware value is ahead of the last slot by the increments since |
| `Tpm2Counter.LatestBlobSurvivesOneMove` | go/tao/tpm2_tao.go:733-799 | after any run a blob unseals iff the counter can be read, no blob came later, and the counter moved at most once since, this call included |
| `Tpm2Counter.UnsealReturnsWhatWasSealed` | go/tao/tpm2_tao.go:743-799 | after any run, unsealing the blob that a seal handed out returns the data given to that very seal if no blob came later and the counter moved at most once, and nothing otherwise |
| `Tpm2Counter.EveryBlobIsHandedOut` | go/tao/tpm2_tao.go:743-777 | every issued blob was handed out by one event of the run |
| `Tpm2Counter.FaultsStopASeal` | go/tao/tpm2_tao.go:707-777 | how far the counter moves for each set of failing commands, and exactly when a blob is handed out |
| `Tpm2Counter.UnsealOnlyOpens` | go/tao/tpm2_tao.go:779-799 | unsealing moves the counter once, if it is not open yet and opening succeeds |
| `Tpm2Counter.BlobSurvivesOneStartUp` | go/tao/tpm2_tao.go:738-739 | a blob just sealed survives the first start-up after it and no later one |
| `RootCounter.RootHost.RollbackProtectedSeal` | go/tao/root_host.go:155-174 | raises the process-wide counter and records it |
| `RootCounter.RunsKeepRising` | go/tao/root_host.go:155-174 | counters of issued blobs rise while the counter only moves forward |
| `RootCounter.OnlyTheLatestUnseals` | go/tao/root_host.go:176-194 | then only the last issued blob unseals |
| `RootCounter.UnsealReturnsWhatWasSealed` | go/tao/root_host.go:155-194 | after any run, unsealing the blob that a seal handed out returns the data given to that very seal if the counter is one more than before it, wrap-around aside, and nothing otherwise |
| `RootCounter.SettingBackRevives` | go/tao/root_host.go:146-149 | setting the counter back revives any issued blob |
| `RootCounter.RestartRefusesAll` | go/tao/soft_tao.go:151 | a new process refuses every blob issued while the counter only moved forward |
| `Layers.TpmIsLatestOnly` | go/tao/tpm2_tao.go:779-799 | a TPM gives a host on top exactly the table keys that an ideal lower host would, one that answers while its counter moved at most once since the last seal |
| `TpmHost.RunsKeepInv` | go/tao/tpm2_tao.go:743-799 | in every joint run of a host and its TPM, failures included, both keep their invariants and the blobs of the TPM hold the table keys of the host, one by one |
| `TpmHost.HostRuns` | go/tao/linux_host.go:396-524 | the host of a joint run is in a run of its own, so that latest-only holds of it |
| `TpmHost.LoadsThroughTpm` | go/tao/linux_host.go:405-413 | in every joint run what the host loads is what the TPM lets it load |
| `TpmHost.TableSurvivesOverTpm` | go/tao/linux_host.go:403-413 | in every joint run a host whose files are the newest gets its table back iff the TPM can be read and its counter moved at most once since the last seal |
| `TpmHost.SealedBetweenNeverLapses` | go/tao/tpm2_tao.go:732-741 | while a complete seal comes between any two start-ups and nothing fails, no pair ever lapses |
| `TpmHost.TwoStartUpsForget` | go/tao/tpm2_tao.go:732-741 | after any joint run that has saved keys, two start-ups without a seal in between make the host forget its table, and every blob can be revived by its owner |
| `Layers.RootIsLatestOnly` | go/tao/root_host.go:155-194 | while its counter only moves forward the software root is an ideal lower host |
| `Layers.TableIsLostOverRoot` | go/tao/root_host.go:176-194 | for every run of a host whose keys the software root sealed while its counter only moved forward, a new process of the root does not give the table back |
| `Layers.SealsNeedAnInitialisedCounter` | go/tao/linux_host.go:440-463 | in every run in which nobody initialises a counter, every seal under its label fails |
| `Layers.TableIsLostOverLinuxHost` | go/tao/rollback.go:126-130 | over a Linux host on which nobody initialises the counter for table keys nothing is ever saved, and after a restart every blob can be revived by its owner |
| `Layers.LinuxIsLatestOnly` | go/tao/linux_host.go:501-524 | with that counter initialised, and without a cause for it to lapse, a Linux host is an ideal lower host |
| `Tpm2Encoding.PackType` | go/tpm2/encoding.go:136-177 | writes the encodings in order, or fails if some element has none |
| `Tpm2Encoding.PackedSize` | go/tpm2/encoding.go:49-90 | the length of the packed elements, or -1 iff they cannot be packed |
| `Tpm2Encoding.PackWithHeader` | go/tpm2/encoding.go:106-120 | header and body, with the size field filled in |
| `Tpm2Encoding.PackWithBytes` | go/tpm2/encoding.go:92-104 | the same for a body that is packed already |
| `Tpm2Encoding.HeaderStatesLength` | go/tpm2/encoding.go:110-120 | a packed command reads back as header and body, and its size field is the total length iff that fits thirty-two bits |
| `Tpm2Encoding.CommandLayout` | go/tpm2/structures.go:25-29 | a command byte by byte: tag, length of the whole, command code, body |
| `Tpm2Encoding.UnpackCell` | go/tpm2/encoding.go:197-254 | consumes the buffer as the specified decoder does |
| `Tpm2Encoding.Unpack` | go/tpm2/encoding.go:179-183 | fills the cells behind the pointers and leaves the rest |
| `Tpm2Encoding.UnpackInvertsPack` | go/tpm2/encoding.go:136-254 | unpacking what was packed into targets of the same types returns it and leaves the bytes that follow iff every byte string is shorter than 65536 and no empty one meets a target with old content |
| `Tpm2Encoding.CellRoundTripIsExact` | go/tpm2/encoding.go:163-243 | for nested values and cells of the same types the round trip holds iff every byte string is shorter than 65536 and no empty one meets a cell with old content |
| `Tpm2Encoding.ValuesOnTheWire` | go/tpm2/encoding.go:136-177 | integers of each size with the high byte first, byte strings behind two bytes of length |
| `Tpm2Encoding.OddCells` | go/tpm2/encoding.go:197-254 | what reading does with a zero length, with slices of other things, and with what has no wire form |
| `RsaArea.CreateRsaParams` | go/tpm2/tpm2.go:289-330 | lays out the fields, with the optional ones exactly when present, behind a length |
| `RsaArea.DecodeRsaBuf` | go/tpm2/tpm2.go:212-261 | decodes with a running offset that stays in range for every buffer |
| `RsaArea.DecodeRsaArea` | go/tpm2/tpm2.go:264-273 | unwraps the area and decodes it |
| `RsaArea.ParsedFitsBuffer` | go/tpm2/tpm2.go:212-261 | what is parsed is never larger than the buffer |
| `RsaArea.RsaAreaRoundTrip` | go/tpm2/tpm2.go:212-330 | an area reads back as its parameters, omitted fields zero, iff it fits a sixteen-bit length |
| `RsaArea.AreaOnTheWire` | go/tpm2/tpm2.go:289-330 | a public area byte by byte; key size and mode are there unless the symmetric algorithm is 0x0010, the scheme hash iff the scheme is 0x0014 |
| `Derivation.Kdfa` | go/tpm2/support.go:149-190 | the concatenated blocks for counters one up to the block count, and the error cases |
| `Derivation.BlocksAreIndependent` | go/tpm2/support.go:154-169 | each block is the keyed hash of its own counter and the fixed fields, at its own place |
| `Derivation.BlockInputLayout` | go/tpm2/support.go:157-166 | what a block is hashed from, byte by byte: counter, label and a zero, both contexts in order, number of bits |
| `Derivation.DerivedLengthIsLeast` | go/tpm2/support.go:152-154 | the output is the least multiple of the digest size that covers the requested bits |
| `Derivation.EncryptDataWithCredential` | go/tpm2/support.go:193-240 | slices of the derived keys stay in range, and the result is as specified |
| `Derivation.CredentialRoundTrip` | go/tpm2/support.go:193-240 | decrypting with the same algorithm and credential restores any data, and is refused for every other integrity value |
| `Derivation.Sha256Credential` | go/tpm2/support.go:193-240 | with SHA-256 the first derived block is cipher key and start value, and the integrity value is the hash of the plain data under the second |
| `Derivation.Sha1Credential` | go/tpm2/support.go:193-240 | with SHA-1 the keys are cut at 16, 32 and 48 to 64 of the four derived blocks |
| `Derivation.XorIsDetermined` | go/tpm2/support.go:208-210 | the exclusive or of two bytes is the one byte whose bits tell where they differ; it commutes, and a byte cancels itself |
| `Derivation.Protect` | go/tao/keys.go:1526-1586 | tag, start value and encrypted data in this order, absent data for absent data, or a key size error |
| `Derivation.Unprotect` | go/tao/keys.go:1588-1651 | checks the tag over start value and data and decrypts, for input of any length or none |
| `Derivation.ProtectedOpensUnderItsKeys` | go/tao/keys.go:1526-1651 | protected data opens under exactly the keys whose tag agrees, and under its own keys to what was protected |
| `Derivation.ProtectedLayout` | go/tao/keys.go:1526-1586 | data is protected iff there are enough keys; for each suite, where the keys are cut, and tag, start value and encrypted data byte by byte |
| `Derivation.UnprotectRefusals` | go/tao/keys.go:1588-1651 | opening is refused for want of keys, or of a whole tag and start value, exactly then |
| `LaunchBarrier.LaunchIsSafe` | cpvmm/vmm/vmm.c:886-935 | in every interleaving no application processor passes its wait before single-core initialisation ends, the counter equals the number that reported in, and the guest runs only after all of them |
| `LaunchBarrier.SchedulesAreFinite` | cpvmm/vmm/vmm.c:996-1061 | no interleaving is longer than the steps that remain |
| `LaunchBarrier.StuckOnlyWhenRunningOrDead` | cpvmm/vmm/vmm.c:158-168 | nothing can move any more only if the guest runs or some application processor is in its dead loop, and once the guest runs none is; the next two rows say which are |
| `LaunchBarrier.ScheduleTellsTheState` | cpvmm/vmm/vmm.c:996-1061 | in every interleaving the moves of a processor tell where it is in its program, and an application processor is dead iff its initialisation move was one that fails |
| `LaunchBarrier.LaunchSucceedsUnlessInitFails` | cpvmm/vmm/vmm.c:886-935 | when nothing can move any more, the guest runs with all application processors counted iff none of their initialisation moves failed |
| `Framing.MessageChannel.ReceiveData` | src/tao/message_channel.cc:50-75 | fills the buffer from any partial reads, and tells a clean end from a broken stream and a failing read |
| `Framing.MessageChannel.ReceiveString` | src/tao/message_channel.cc:77-98 | one message, a clean end, or an error, as the bytes left and the state of the connection determine |
| `Framing.MessageChannel.ReceiveStrings` | src/tao/message_channel.cc:77-98 | repeated receiving yields the specified messages however the transport splits the bytes |
| `Framing.MessageStream.ReadFull` | go/util/messagestream.go:64-68 | fills the buffer, with the error that tells an empty from a partial read and from a failing one |
| `Framing.MessageStream.ReadString` | go/util/messagestream.go:62-81 | one message or the error for each way the stream can end |
| `Framing.MessageStream.ReadStrings` | go/util/messagestream.go:62-81 | repeated reading yields the specified messages however the transport splits the bytes, and the error for how the stream ends |
| `Framing.WriteString` | go/util/messagestream.go:46-58 | the frame of every string whose length fits, and a refusal of the others |
| `Framing.AllMessagesArrive` | src/tao/message_channel.cc:35-98 | the messages sent are exactly what is received, with a clean end, iff all of them fit the length field and the receiver's limit |
| `Framing.EveryCutIsDetected` | src/tao/message_channel.cc:77-98 | a stream cut inside a message yields the whole messages before it, and the kind of cut by where it falls |
| `Framing.ErrorTellsTheCut` | go/util/messagestream.go:62-81 | the error of the Go reader for a stream cut inside a message: a clean end before or right behind a length, an unexpected one elsewhere, a failed read if the connection broke down |
| `Framing.FrameLayout` | go/util/messagestream.go:46-58 | a frame is four bytes of length, the high one first, and the message |
| `Framing.LimitIsExact` | go/util/messagestream.go:69-72 | a frame is refused as too large iff its message is longer than the limit |

## Left out

- Concurrency inside one host: each call is one atomic step. The lock is released between the lookup and the update of a counter (go/tao/linux_host.go:427-434), so interleaved calls are not modelled.
- Pointer and value duplicates of formula types: one constructor each.
- HostStack.GeneratedIsGenuine: a default expiration past the range of 64-bit nanoseconds, which the source would wrap, is outside the representable statements.
- HostStack.StackIsComplete: how keys are sealed and written to disk is not modelled, nor a stacked host with keys but no delegation.
- AuthRoundTrip.UnmarshalInvertsMarshal: a character of the model stands for one byte; strings beyond that, and integers and counts beyond the types of the source, are excluded.
- AuthBuffer.Buffer.DecodeNameAndArgs: a negative count of arguments, on which the source panics, is a failure; running out of memory for a large count is not modelled.
- TPM hosts as attesting roots, and how a quote is unmarshalled and verified, which stays behind `verifyQuote` and `verifyQuote2`.
- The datalog engine itself, including how it evaluates queries: it is a set of clauses.
- DatalogGuard.AssertTakesEffect: the engine is taken to accept every clause except those for the custom predicate, also one whose body does not cover its head, as in the negative case of `SafetyIsExact`.
- DatalogTranslation.StmtToDatalog: a quoted, printed term is kept as the term, so printing is taken to be injective.
- DatalogGuard.EngineMeansThePolicy: the condition is exact for each rule by itself; a set of rules can keep its meaning although one of them does not, if the others make up for it.
- DatalogGuard.Guard.Reload: the signature check and the decoding of the rule file as a whole.
- Rollback.LinuxHost.RollbackProtectedSeal: encryption is symbolic and does not fail, and blobs made by ordinary sealing are outside the claims.
- RollbackRuns.OnlyTheLatestBlobUnseals: one direction only, because an initialised counter or a refused seal can also retire the latest blob; `ReviveIsExact` has both directions for every blob and every state of the host.
- RollbackRuns.LapsesAreLosses: after a start from scratch that follows a save, a saved table can still account for an unsaved pair, if it was saved with a higher counter that was initialised and never sealed under.
- RollbackRuns.RunsKeepInv: the two files hold whole versions that the host once wrote, never partial ones, and the lower host is ideal; `Layers` says when the real ones are.
- Tpm2Counter.Tpm2Tao.InitCounter: the counter is deleted and defined anew at start-up (go/tpm2/tpm2.go:2704-2711); the model assumes that it continues from its old value.
- Tpm2Counter.Tpm2Tao.RollbackProtectedSeal: a failing command has no effect on the device; 64-bit overflow of the hardware counter is not modelled.
- Derivation.Unprotect: slicing input that is too short, which panics in the source, is the error `InputTooShort`.
- Derivation.Kdfa: a label of 32 bytes or more, which panics in the source, is the error `LabelTooLong`.
- LaunchBarrier.LaunchIsSafe: failures of the boot processor itself. The 32-bit launch counter does not wrap in the model; processor numbers are 16 bits wide.
- Framing.MessageStream.ReadString: platforms whose `int` has 32 bits.
- Access control lists, caching and trivial guards, certificates, key storage, RPC stubs, process and container factories, configuration: they would only add easy members.
