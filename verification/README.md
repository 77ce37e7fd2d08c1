# Models of Angular tooling, verified in Dafny

The project models the parts of the Angular repository whose correctness depends on hidden state, on
an encoding, or on an incremental computation, and proves what those parts are for.

**Constant pool** (`OutputAst`, `Occurrences`, `KeyFn`, `KeyDomain`, `Numerals`, `Names`, `Pool*`,
`ConstantPool`). The template compiler pools literals: a literal that is requested again is declared
once as `_cN`, and the expression that was handed out for the first request is a fix-up that now
reads the declaration. Literals with non-constant parts become calls of shared factory functions.
`PoolModel` gives every operation as a function of the pool's state, `ConstantPool` is the class
with its mutable fix-ups, each method of which is proved to compute exactly that function, and
`PoolSemantics` gives expressions and declarations a meaning. `PoolInvariant` and `PoolPreserved`
hold the invariant of every reachable state, `PoolMeaning` and `PoolTheorems` the guarantees: for
every sequence of requests, whatever is requested later, the emitted expression has the value of the
literal that was asked for. `PoolMinimality` says which literals are declared at all, `PoolNames`
that names do not clash, and `PoolAnswers` what requests are answered with and what they declare, by
what occurs in the literals (`Occurrences`). All of it rests on the textual key of an expression.
`KeyFn` reads keys back, and `KeyDomain` says exactly what a key forgets: the sign of zero, whether
a missing name of an import was spelled "null", and the run-time value of an import; and, since
quotes are not escaped, which alphabets make keys ambiguous. A string that stands alone, such as a
stylesheet, shares its key with nothing. The exact condition is proved for keys and for the meaning
of all runs of the pool, with the strings inside other expressions and the quoted field keys written
over any alphabet. Two things stay outside that family: a module name does not hold both a double
quote and a comma, and unquoted field keys and the names of imports and variables hold none of the
characters that end a part of a key.

**Watch mode** (`WatchModel`, `WatchProofs`, `WatchReads`, `WatchSettles`, `WatchReports`,
`WatchHost`, `WatchHistory`, `WatchSession`). A state machine whose steps are compilations, changes
of the disk, reports of the file watcher, the passing of time, timers that fire, and closing. The
proofs are about every run: the file cache agrees with the disk up to undelivered events, what the
caching host answers during and after a compilation is characterised exactly, at most one
recompilation timer is live and holds exactly the paths reported since the last attempt, and a
session left alone stops recompiling after at most one recompilation more than there were events to
report. The compiler host can outlive the options it was made from, and it is said exactly in which
runs a compilation has a host made from its options. Reports can be lost: an attempt that finds
errors in its configuration drops the queue without telling the compiler, while every other attempt
offers it. What the session holds at any time, and that nothing happens after it is closed, is said
by the history of the run. `WatchSession` is the session with its mutable variables and cache
entries; it is proved to do every step, and so every run, of the state machine.

**Smaller algorithms.** `Utf8` (encoding of UTF-16 strings against section 3 of RFC 3629 and section
2.2 of RFC 2781), `ParseLocation` (moving a line and column against counting line feeds),
`Statistic` (mean and regression slope are the optima they stand for, over exact reals),
`R3Selector` (a uniquely decodable flat encoding), `ExtendedOptions` (the accumulator recursion over
`extends` against the first definition in a preorder walk), `StyledMessage` (what a terminal shows
of a styled message), `Sampler` (what a sampling run reports), `SymbolExtractor` (a visitor with a
depth counter against places in the tree), `SymbolDiff` (a difference of multisets in a dictionary
with inherited names), `VersionOrder` (a total preorder). `Wrappers` holds the option type that all
of them share.

Where the code and its comments disagree the model follows the code: a key visitor context for
fix-ups exists (`packages/compiler/src/constant_pool.ts:57-60`), but producing a key for a nested
fix-up throws; the comment on `uniqueName` asks for prefixes that do not end in a digit, which is
sufficient for names to differ but not the exact condition proved here.

Results about what the code does not do are stated as theorems too, each with a concrete input:
`KeyDomain.QuoteCommaCollision`, `KeyDomain.QuoteColonCollision`, `KeyDomain.MixedCollision`,
`KeyDomain.RuntimeCollision`, `PoolTheorems.CollidingRun`, `WatchProofs.FirstOutputStaysStale`,
`WatchHost.HostOutlivesOptions`, `WatchReports.LostReport`, `StyledMessage.CutCodeIsShown`,
`SymbolDiff.InheritedNeverMatches` and `SymbolDiff.ProtoGoesUnnoticed`. The exact conditions are in
`KeyDomain.InjectiveIffAlphabetSafe`, `PoolTheorems.MeaningIffAlphabetSafe`,
`WatchReads.ReadIsCurrentIff`, `WatchReports.ReportOfferedIff`, `WatchHost.HostMatchesIff`,
`WatchSettles.SettledIffOwnWrites`, `SymbolDiff.EmptyIff`, `StyledMessage.CharactersKeptIff` and
`ParseLocation.BackConsistentIff`.

`dafny verify dfyconfig.toml` checks the whole project.

## Model

| member | source | states |
|---|---|---|
| `KeyDomain.KeyRoundTrip` | packages/compiler/src/constant_pool.ts:279-310 | Every readable expression of the handled kinds is read back from its key, in canonical spelling, so the key grammar is unambiguous |
| `KeyDomain.SameKeyIffSameCanon` | packages/compiler/src/constant_pool.ts:276-311 | Two readable expressions share a key exactly when their canonical spellings agree |
| `KeyDomain.KeyInjective` | packages/compiler/src/constant_pool.ts:276-311 | On unmixed spellings two expressions, each readable or a string that stands alone, share a key exactly when they are equal but for run-time values of imports |
| `KeyDomain.WholeKey` | packages/compiler/src/constant_pool.ts:279-306 | The key of a string that stands alone, a stylesheet for instance, is that of no other expression, whatever characters the string holds |
| `KeyDomain.InjectiveIffAlphabetSafe` | packages/compiler/src/constant_pool.ts:280-301 | For an alphabet of quoted keys and of the strings inside other expressions, and sets of number, module and import spellings, with any strings that stand alone: keys identify expressions, run-time values aside, exactly when the alphabet lacks the double quote, or both the comma and the colon, not both zeros occur, and neither modules nor imports mix a missing name with one spelled "null" |
| `KeyDomain.MixedCollision` | packages/compiler/src/constant_pool.ts:280-301 | Whenever that condition fails, two different expressions of the family that share a key |
| `KeyDomain.QuoteCommaCollision` | packages/compiler/src/constant_pool.ts:281 | Any two strings in an array share their key with a one-element array |
| `KeyDomain.QuoteColonCollision` | packages/compiler/src/constant_pool.ts:292-298 | Any object of one quoted field with a string value shares its key with another one whenever the key or the value holds a double quote, a colon and a double quote |
| `KeyDomain.RuntimeCollision` | packages/compiler/src/constant_pool.ts:301 | References to one import that differ in their run-time value share a key |
| `Names.ClaimsAt` | packages/compiler/src/constant_pool.ts:255-261 | A request for a name gets its prefix with the number of earlier requests for that prefix, left out for the first if allowed |
| `Names.NameOfRequest` | packages/compiler/src/constant_pool.ts:255-261 | With no names claimed before, the first request for a prefix that allows it gets the prefix, every other one the prefix and the number of earlier requests for it |
| `Numerals.DecIsNumeral` | packages/compiler/src/constant_pool.ts:257 | A number in a name is its decimal numeral, without leading zeros |
| `Names.UniqueIffApart` | packages/compiler/src/constant_pool.ts:248-261 | For a set of prefixes, no sequence of requests receives a name twice, exactly when no prefix is another followed by a numeral (a positive one if suffixes are always included) |
| `Names.NoTrailingDigitIsApart` | packages/compiler/src/constant_pool.ts:251-253 | Prefixes that do not end in a digit, as the comment asks, are enough for that |
| `PoolNames.NamesNeverRepeat` | packages/compiler/src/constant_pool.ts:248-265 | Whatever else a pool is asked for in between, two requested names differ if no prefix in use is another followed by a numeral |
| `PoolNames.NamesAvoidDeclarations` | packages/compiler/src/constant_pool.ts:248-265 | Under the same condition a requested name is never that of a constant or factory declared before or after |
| `ConstantPool.ConstantPool.constructor` | packages/compiler/src/constant_pool.ts:90-105 | A new pool is the empty state |
| `ConstantPool.ConstantPool.UniqueName` | packages/compiler/src/constant_pool.ts:256-260 | The method returns the name and leaves the state of the specification whose results `Names` characterises |
| `ConstantPool.ConstantPool.FreshName` | packages/compiler/src/constant_pool.ts:263-265 | Constants are named with the prefix `_c` and a suffix always |
| `ConstantPool.ConstantPool.ShareConstant` | packages/compiler/src/constant_pool.ts:123-159 | The literal is declared last, wrapped in a function just for long strings in Closure mode, and only the one fix-up object changes |
| `ConstantPool.ConstantPool.AddFixup` | packages/compiler/src/constant_pool.ts:117-121 | A new, unshared fix-up is registered under a key that had none; existing fix-ups are untouched |
| `ConstantPool.ConstantPool.GetConstLiteral` | packages/compiler/src/constant_pool.ts:107-162 | Over mutable fix-up objects the method reaches the state and returns the reply of the specification that the theorems are about |
| `ConstantPool.ConstantPool.ResultExpressions` | packages/compiler/src/constant_pool.ts:232-233 | The loop over the values shares constants in order and numbers parameters by position |
| `ConstantPool.ConstantPool.DeclareFactory` | packages/compiler/src/constant_pool.ts:234-243 | A new factory takes the parameters in order, is declared last under a fresh constant name and registered under its key |
| `ConstantPool.ConstantPool.GetLiteralFactory` | packages/compiler/src/constant_pool.ts:174-246 | The whole request, cache hits included, reaches the state and returns the reply of the specification that the theorems are about |
| `PoolTheorems.ReachableInv` | packages/compiler/src/constant_pool.ts:89-266 | Every state reachable by admissible requests has indexed literals, declared shared fix-ups, fresh distinct names, ordered reads and declared factories |
| `PoolPreserved.StepKeeps` | packages/compiler/src/constant_pool.ts:107-261 | Every operation keeps that invariant, never alters or reorders a declaration, and never changes a shared fix-up |
| `PoolTheorems.ConstantsKeepMeaning` | packages/compiler/src/constant_pool.ts:46-162 | Whatever is requested later, in Closure mode or not, the expression returned for a literal means under the final declarations what the literal meant when requested |
| `PoolTheorems.FactoriesKeepMeaning` | packages/compiler/src/constant_pool.ts:174-246 | Whatever is requested later, calling the returned factory with the values of the returned arguments yields the value of the literal at the place of use |
| `PoolTheorems.MeaningIffAlphabetSafe` | packages/compiler/src/constant_pool.ts:107-246 | For all runs of constant, factory and name requests, with any strings that stand alone, and with the strings inside other expressions and the quoted keys over an alphabet, and spellings, in all scopes: constants and factories keep their meaning exactly when the alphabet lacks the double quote, or both the comma and the colon, and the spellings are unmixed |
| `PoolTheorems.CollidingRun` | packages/compiler/src/constant_pool.ts:114-116 | For any two array literals with one key and different values, a run in which the second is answered with the first |
| `PoolMeaning.FixupMeaning` | packages/compiler/src/constant_pool.ts:56-81 | A fix-up, resolved to its literal or to a declared variable or call, means its original literal |
| `PoolMeaning.FactoryMeaning` | packages/compiler/src/constant_pool.ts:229-245 | A factory found under a literal's key serves that literal although it may have been made for another one |
| `PoolMeaning.ParamBound` | packages/compiler/src/constant_pool.ts:230-235 | Parameters and arguments line up position by position |
| `PoolTheorems.SameReplyIffSameLiteral` | packages/compiler/src/constant_pool.ts:114-121 | Two pooled literals receive the same fix-up exactly when they are equal but for run-time values |
| `PoolTheorems.SecondRequestShares` | packages/compiler/src/constant_pool.ts:123-161 | From the second request on a literal is declared, and the expressions of both requests use the declaration |
| `PoolTheorems.SharedIffDeclaredOnce` | packages/compiler/src/constant_pool.ts:123-159 | A fix-up is shared exactly when a statement declares its literal, and never do two |
| `PoolMinimality.DeclaredIffWanted` | packages/compiler/src/constant_pool.ts:115-243 | In every run a literal is declared exactly when it was asked for twice or with sharing forced, by requests for it or as a constant of a factory that is new; one request registers it undeclared |
| `PoolAnswers.AnsweredByItselfIff` | packages/compiler/src/constant_pool.ts:107-121 | In every state, with sharing forced or not: undefined, null, booleans, numbers, strings shorter than 50 and fix-ups, and nothing else, are answered by themselves with the pool unchanged; every other literal in which no call, fix-up or other kind occurs is answered by a fix-up, and for the rest the request throws |
| `PoolAnswers.WrappedIffLong` | packages/compiler/src/constant_pool.ts:123-159 | In every run a declaration returns from a function exactly when the pool is in Closure mode and the literal is a string of at least 50 characters |
| `PoolAnswers.NameReply` | packages/compiler/src/constant_pool.ts:248-261 | In every run a requested name is the prefix and the number of earlier requests for it, declarations counting for `_c`, with zero left out if allowed |
| `PoolAnswers.DeclarationNames` | packages/compiler/src/constant_pool.ts:263-265 | In every run that requests no name `_c` itself the declarations are called `_c0`, `_c1` and so on |
| `Occurrences.ConstantIff` | packages/compiler/src/output/output_ast.ts:1062-1104 | An expression is constant exactly when at no path in it there is a variable, an import, a call or an expression of another kind |
| `Occurrences.KeyableIff` | packages/compiler/src/constant_pool.ts:279-310 | An expression has a key exactly when at no path in it there is a call, a fix-up or an expression of another kind |
| `PoolAnswers.FactoryAnswer` | packages/compiler/src/constant_pool.ts:174-246 | In every run the arguments are the values in which a variable, import, call or other kind occurs, in order; the factory takes just the parameters of their positions and builds such a literal, of the same keys quoted alike, from them and from every other value, which it holds as a literal or as its declared constant |
| `PoolAnswers.SameFactoryIffSameTemplate` | packages/compiler/src/constant_pool.ts:178-193 | Two literals get the same factory exactly when their templates are equal but for run-time values |
| `PoolAnswers.KnownFactoryDeclaresNothing` | packages/compiler/src/constant_pool.ts:229-245 | A request whose template was requested before leaves the pool as it is |
| `PoolTheorems.FactoryReadsEarlier` | packages/compiler/src/constant_pool.ts:232-241 | Every name a factory reads, other than its parameters, is declared by an earlier statement |
| `PoolTheorems.NestedRequestsSucceed` | packages/compiler/src/constant_pool.ts:178-233 | If the template of a literal has a key, every nested request for one of its constants succeeds |
| `PoolTheorems.ThrowsIffNoKey` | packages/compiler/src/constant_pool.ts:107-246 | A request fails exactly when its literal or template has no key, and leaves no partial declarations: no nested request fails after others were done |
| `WatchProofs.CacheCoherent` | packages/compiler-cli/src/perform_watch.ts:147-285 | In every reachable state a cached answer that differs from the disk is for a path whose change is undelivered or was never going to be reported |
| `WatchReads.ReadIsCurrentIff` | packages/compiler-cli/src/perform_watch.ts:178-208 | After any calls from a state with nothing pending for a path, a read of it is right exactly unless: a missing file was checked and then written; the first successful read gave another text than the last one written; or the first source file had another text or language version |
| `WatchReads.CompilationReadsExactly` | packages/compiler-cli/src/perform_watch.ts:166-250 | The same in every run, at every moment of the first compilation and of each recompilation, own writes included |
| `WatchProofs.CompilationReadsDisk` | packages/compiler-cli/src/perform_watch.ts:184-208 | A corollary for one kind of read: in a recompilation that starts with no event undelivered, files that were not missed and that it has not written read as on the disk it started with |
| `WatchReads.FirstCompilationLeaves` | packages/compiler-cli/src/perform_watch.ts:135-143 | When watching starts nothing is undelivered, and reads are right exactly under that condition on the first compilation's calls |
| `WatchProofs.ReadIsUncached` | packages/compiler-cli/src/perform_watch.ts:184-208 | With nothing pending for a path a cached read answers like the original host, and for source files fully so exactly when the language version is the one cached |
| `WatchProofs.TimerIffOutstanding` | packages/compiler-cli/src/perform_watch.ts:290-308 | At most one timer is live, and one is live exactly when a reported, not ignored path awaits a recompilation |
| `WatchProofs.QueueIsOutstanding` | packages/compiler-cli/src/perform_watch.ts:281-301 | The queued record holds exactly the normalised, not ignored paths reported since the last attempt |
| `WatchProofs.TimerDue` | packages/compiler-cli/src/perform_watch.ts:299 | The live timer is due 250 ms after the last report that scheduled it |
| `WatchProofs.AttemptSeesReport` | packages/compiler-cli/src/perform_watch.ts:287-308 | The first attempt after a report finds its path in the queue, and starts at least 250 ms after it |
| `WatchReports.ReportOfferedIff` | packages/compiler-cli/src/perform_watch.ts:166-173 | At the first attempt after a report a compiler that asks is told of its path exactly when the options then in force have no errors; either way the path leaves the queue |
| `WatchReports.ToldIsOutstanding` | packages/compiler-cli/src/perform_watch.ts:209-215 | A compiler that asks is told of a path exactly when it compiles and the path was reported since the last attempt |
| `WatchReports.LostReport` | packages/compiler-cli/src/perform_watch.ts:170-173 | A run in which a reported change is never told to any compilation, though the program from before it is still in use |
| `WatchProofs.AttemptIsToldQueue` | packages/compiler-cli/src/perform_watch.ts:209-215 | Whenever the compiler asks during an attempt, it is told the files queued for that attempt |
| `WatchSettles.CompilationIgnoresWrites` | packages/compiler-cli/src/perform_watch.ts:178-217 | After a compilation exactly the normalised paths of the files it wrote are ignored; an attempt that errors in the options cut short leaves the ignored paths alone |
| `WatchSettles.IgnoredIsLastWritten` | packages/compiler-cli/src/perform_watch.ts:178-217 | In every run exactly the files that the last compilation wrote are ignored, whatever was attempted and reported since |
| `WatchSettles.NothingIgnored` | packages/compiler-cli/src/perform_watch.ts:178-217 | In every run without a compilation that is not cut short by errors the ignored paths are those of the start, of which a new session has none |
| `WatchProofs.SettledIffOwnEvents` | packages/compiler-cli/src/perform_watch.ts:281-284 | With no timer live, a session left alone never recompiles again exactly when every undelivered event is for an ignored path |
| `WatchSettles.SettledIffOwnWrites` | packages/compiler-cli/src/perform_watch.ts:281-284 | In every run, with no timer live: the session left alone never recompiles again exactly when every undelivered event is for a file the last compilation wrote |
| `WatchProofs.NoSelfTrigger` | packages/compiler-cli/src/perform_watch.ts:178-217 | After a recompilation that starts with nothing undelivered, the session left alone never recompiles again |
| `WatchSettles.FinitelyManyRecompilations` | packages/compiler-cli/src/perform_watch.ts:178-308 | Once nobody else acts, and as long as the events of each recompilation's own writes arrive before the next one, at most one recompilation more happens in any run than there were events undelivered when the first one started, those of others included |
| `WatchSettles.FewerLeft` | packages/compiler-cli/src/perform_watch.ts:178-308 | Under those conditions every further recompilation finds strictly fewer events undelivered than the one before |
| `WatchProofs.HostFollowsOptions` | packages/compiler-cli/src/perform_watch.ts:175-268 | In every run without reports of creations or deletions the compiler host is one made from the options in force |
| `WatchProofs.RereadKeepsHost` | packages/compiler-cli/src/perform_watch.ts:268-273 | After a report of a creation or deletion a compilation that follows at once has a host for its options exactly when the options read again are the old ones |
| `WatchHost.HostMatchesIff` | packages/compiler-cli/src/perform_watch.ts:175-273 | In every run a compilation has a host made from its options exactly when the first compilation since the last report of a changed configuration whose options were known, if there is one, had the same options |
| `WatchHost.NoHostIff` | packages/compiler-cli/src/perform_watch.ts:175-273 | In every run there is no host exactly when every compilation so far was followed by such a report |
| `WatchHost.HostOutlivesOptions` | packages/compiler-cli/src/perform_watch.ts:261-273 | A run in which a deletion and then a changed configuration are reported: the options are already forgotten at the second report, so the next compilation has the new options and the old host |
| `WatchHistory.ClosedForGood` | packages/compiler-cli/src/perform_watch.ts:157-163 | After a close, in every run: no report is handled, no compilation runs, no timer is live and nothing more is to be reported |
| `WatchHistory.ProgramIsLast` | packages/compiler-cli/src/perform_watch.ts:218-243 | In every run the program kept for the next compilation is that of the last one, or none if a changed configuration was reported since |
| `WatchHistory.NoProgramYet` | packages/compiler-cli/src/perform_watch.ts:126 | Before any compilation the program is that of the start, of which a new session has none |
| `WatchHistory.ResetForgetsAll` | packages/compiler-cli/src/perform_watch.ts:252-268 | A reported change of the configuration forgets program, host and options |
| `WatchHistory.OptionsInForce` | packages/compiler-cli/src/perform_watch.ts:166-173 | In every run the options in force are those read by the first attempt, successful or not, after they were last forgotten |
| `WatchHistory.KeptUntilReported` | packages/compiler-cli/src/perform_watch.ts:184-208 | In every run a cached answer stays until a change that covers its path is reported, which drops it and no other |
| `WatchProofs.FirstOutputStaysStale` | packages/compiler-cli/src/perform_watch.ts:135-143 | A file first checked and then written by the first compilation, before watching starts, is answered from the stale cache with no event undelivered |
| `WatchSession.Session.constructor` | packages/compiler-cli/src/perform_watch.ts:126-133 | A new session is the initial state |
| `WatchSession.Session.CacheEntryFor` | packages/compiler-cli/src/perform_watch.ts:147-155 | The entry of the normalised path, created empty when missing; no other path gets or shares it |
| `WatchSession.Session.FileExists` | packages/compiler-cli/src/perform_watch.ts:185-191 | The method does the step of the state machine, caching negative answers too |
| `WatchSession.Session.GetSourceFile` | packages/compiler-cli/src/perform_watch.ts:193-200 | The step for source files, which ignores the language version of a cached file |
| `WatchSession.Session.ReadFile` | packages/compiler-cli/src/perform_watch.ts:202-208 | The step for file contents, which does not cache a missing file |
| `WatchSession.Session.GetModifiedResourceFiles` | packages/compiler-cli/src/perform_watch.ts:209-215 | The files of the queued record, or nothing when there is none |
| `WatchSession.Session.WriteFile` | packages/compiler-cli/src/perform_watch.ts:178-183 | The step for writes: the file joins the ignore set and the disk changes, while the cache does not |
| `WatchSession.Session.PerformCompilation` | packages/compiler-cli/src/perform_watch.ts:222-228 | Any sequence of calls the compiler makes on the host, in order, is the run of the state machine |
| `WatchSession.Session.DoCompilation` | packages/compiler-cli/src/perform_watch.ts:166-250 | A whole compilation, cut short by errors in the configuration, is the step of the state machine |
| `WatchSession.Session.WatchedFileChanged` | packages/compiler-cli/src/perform_watch.ts:258-285 | A report is the step of the state machine, with what it forgets, drops and schedules |
| `WatchSession.Session.StartTimerForRecompilation` | packages/compiler-cli/src/perform_watch.ts:290-301 | The old timer is cleared, a new one is set and the path joins the queued record |
| `WatchSession.Session.Recompile` | packages/compiler-cli/src/perform_watch.ts:303-308 | The queued record lasts through the compilation and is then dropped |
| `WatchSession.Session.Perform` | packages/compiler-cli/src/perform_watch.ts:126-309 | Every enabled step of the state machine, with what its handler resets, clears or closes, is done by the session |
| `WatchSession.Session.Replay` | packages/compiler-cli/src/perform_watch.ts:121-309 | Every run of the state machine is done by the session, whose cache stays coherent and which has at most one live timer |
| `Utf8.Utf8Encode` | packages/compiler/src/util.ts:44-74 | The loop computes the encoding that the following lemmas are about, on every sequence of code units |
| `Utf8.EncodesCharacters` | packages/compiler/src/util.ts:51-71 | The output is the octets of section 3 of RFC 3629 of the characters of section 2.2 of RFC 2781, in order |
| `Utf8.ScalarsIffWellFormed` | packages/compiler/src/util.ts:49-57 | Only scalar values are encoded exactly when every surrogate of the input is part of a pair |
| `Utf8.RoundTrip` | packages/compiler/src/util.ts:44-74 | A decoder recovers every input, lone surrogates included |
| `Utf8.EncodeLength` | packages/compiler/src/util.ts:59-70 | Between one and three bytes per code unit |
| `Utf8.AppendIffNoPairCut` | packages/compiler/src/util.ts:49-57 | Encoding distributes over a concatenation exactly when the cut splits no surrogate pair |
| `ParseLocation.MoveBy` | packages/compiler/src/parse_util.ts:20-51 | Both loops compute the step-by-step move that the following lemmas are about, for every location and distance |
| `ParseLocation.ForwardConsistent` | packages/compiler/src/parse_util.ts:39-49 | From a location that agrees with counting line feeds, a forward move, clamped to the end, reaches one that does |
| `ParseLocation.SameDirectionAdds` | packages/compiler/src/parse_util.ts:20-51 | Moves in the same direction compose by adding distances |
| `ParseLocation.BackExact` | packages/compiler/src/parse_util.ts:26-38 | Backward moves have exact offset and line; the column is exact if no line feed is crossed or the end is on the first line, and too large otherwise |
| `ParseLocation.BackOnLine` | packages/compiler/src/parse_util.ts:36-38 | A backward move that crosses no line feed lowers the column by the distance |
| `ParseLocation.BackColumn` | packages/compiler/src/parse_util.ts:26-38 | Otherwise the column is exactly that set at the line feed crossed last, less the distance from there: counted from the last line feed that is neither next to it nor the first character, or else from the start of the text |
| `ParseLocation.BackConsistentIff` | packages/compiler/src/parse_util.ts:29-37 | A backward move agrees with counting exactly when no line feed lies between its end and its start or before its end |
| `ParseLocation.BackAndForth` | packages/compiler/src/parse_util.ts:20-51 | Moving back and then forward by the same distance restores offset, line and column |
| `ParseLocation.ContextStart` | packages/compiler/src/parse_util.ts:63-74 | The farthest start within the limits on characters and lines, stopping early only at the start of the text |
| `ParseLocation.ContextEnd` | packages/compiler/src/parse_util.ts:76-86 | The farthest end within the limits, stopping early only at the end of the text |
| `ParseLocation.ContextUnique` | packages/compiler/src/parse_util.ts:63-86 | Those conditions determine both ends |
| `ParseLocation.GetContext` | packages/compiler/src/parse_util.ts:55-96 | The two texts are, character by character, those from that start to the location and from the location to that end; behind the end of the text nothing follows |
| `Statistic.CalculateMean` | packages/benchpress/src/statistic.ts:14-19 | The mean times the number of samples is their sum; no number for no samples |
| `Statistic.MeanMinimises` | packages/benchpress/src/statistic.ts:21-24 | The mean, and no other number, minimises the sum of squares that the deviation accumulates |
| `Statistic.CalculateStandardDeviation` | packages/benchpress/src/statistic.ts:21-28 | Given a square root, the square of the result times the number of samples is the sum of squared deviations; no number for no samples |
| `Statistic.DeviationIsLeast` | packages/benchpress/src/statistic.ts:14-28 | The standard deviation around the mean is less than around any other centre |
| `Statistic.SpreadSign` | packages/benchpress/src/statistic.ts:23-42 | The sum of squared deviations is never negative, and zero exactly when all values equal the centre |
| `Statistic.CalculateRegressionSlope` | packages/benchpress/src/statistic.ts:30-44 | A slope exists exactly when every x has a y and the x values deviate from the mean, and is the quotient of the two sums |
| `Statistic.SlopeMinimises` | packages/benchpress/src/statistic.ts:37-43 | With true means and x values not all equal, the line of that slope through the means has the least squared residuals, and no other line does |
| `R3Selector.RoundTrip` | packages/compiler/src/core.ts:116-175 | A decoder of the flat list, which knows the flags by their numbers, recovers the normal form of every selector |
| `R3Selector.EncodingIsOnly` | packages/compiler/src/core.ts:116-175 | The encoding is the one list that decodes to the normal form of the selector |
| `R3Selector.SameEncodingIffSameNormal` | packages/compiler/src/core.ts:141-175 | Two selectors are encoded alike exactly when their normal forms agree, so nothing but the stated normalisation is lost |
| `ExtendedOptions.OptionsAreFirstDefined` | packages/compiler-cli/src/perform_compile.ts:72-126 | Every option has the caller's value, else that of the first file defining it in a preorder walk taking `extends` right to left, else the default; there are none when the project file cannot be read |
| `StyledMessage.StringEncaseCRLFWithFirstIndex` | packages/compiler-cli/ngcc/index.ts:12-27 | The index-chasing loop ends and puts every line ending, LF or CRLF and never split, between prefix and postfix |
| `StyledMessage.StyleMessage` | packages/compiler-cli/ngcc/index.ts:31-42 | The message with encased line endings between the opening and closing codes |
| `StyledMessage.StyledMessageShows` | packages/compiler-cli/ngcc/index.ts:31-42 | A terminal shows the message with its own escape sequences obeyed, every line ending out of style and every line red and bold from its start, exactly when no escape sequence of the message runs past the end of its line |
| `StyledMessage.PlainMessageShows` | packages/compiler-cli/ngcc/index.ts:31-42 | Without escape sequences of its own the message is red and bold throughout, but for its line endings |
| `StyledMessage.CharactersKeptIff` | packages/compiler-cli/ngcc/index.ts:31-42 | The characters shown of the styled message are those shown of the message itself, exactly under the same condition; otherwise the cut sequence becomes visible |
| `StyledMessage.CutCodeIsShown` | packages/compiler-cli/ngcc/index.ts:31-42 | A message whose line ends in the middle of an escape sequence shows nothing by itself, and its line ending once styled |
| `StyledMessage.EncasedInNothing` | packages/compiler-cli/ngcc/index.ts:12-27 | Apart from the inserted prefixes and postfixes every character of the text is kept in its place |
| `StyledMessage.EveryCharacterShown` | packages/compiler-cli/ngcc/index.ts:17-26 | The message styled throughout, as a message without escape sequences is shown, has the characters of the message, in order |
| `Sampler.SampleReports` | packages/benchpress/src/sampler.ts:52-98 | On any measurements the reporter receives exactly the accepted ones of those consumed, numbered from zero, and the sample once, at the first accepted prefix the validator approves |
| `Sampler.EachIsExecuted` | packages/benchpress/src/sampler.ts:52-98 | In every log the measured code runs right before each end of a measurement and nowhere else, with a preparation step right after a preparation and a beginning, which stand nowhere else; it runs once for each measurement consumed; what was just measured is reported, and the sample last |
| `Sampler.MeasurementsAreBegun` | packages/benchpress/src/sampler.ts:65-79 | No measurement is ended that was not begun or restarted |
| `Sampler.BegunUntilAccepted` | packages/benchpress/src/sampler.ts:72-79 | Without preparation no measurement is begun after the first accepted one is reported |
| `SymbolExtractor.Visitor.Visit` | tools/symbol-extractor/symbol_extractor.ts:26-69 | The mutable depth counter is restored, and the symbols added are those of the recursion with a depth parameter |
| `SymbolExtractor.FoundIsDeclared` | tools/symbol-extractor/symbol_extractor.ts:30-64 | A symbol is found as often as there are places that declare it, reached through at most one function, and for a variable through exactly one |
| `SymbolExtractor.StripSuffixIs` | tools/symbol-extractor/symbol_extractor.ts:128-131 | Exactly the last `$` and what follows it are left out of a name |
| `SymbolExtractor.AtMostIs` | tools/symbol-extractor/symbol_extractor.ts:19-21 | The order is that of the first different character, or of a text before those that continue it |
| `SymbolExtractor.SortIsUnique` | tools/symbol-extractor/symbol_extractor.ts:19-21 | Lists of the same symbols sorted by that order are equal |
| `SymbolExtractor.Parse` | tools/symbol-extractor/symbol_extractor.ts:23-74 | The result is sorted, has each symbol as often as places declare it, and is the only sorted permutation of what the visitor finds |
| `SymbolDiff.Diff` | tools/symbol-extractor/symbol_extractor.ts:76-98 | The entry of every name: the difference of its counts or none if they agree; for a name that objects inherit, an entry as soon as it occurs; for `__proto__` none |
| `SymbolDiff.EmptyIff` | tools/symbol-extractor/symbol_extractor.ts:80-97 | The result is empty exactly when both lists hold the same symbols equally often, `__proto__` aside, and neither holds an inherited name |
| `SymbolDiff.InheritedNeverMatches` | tools/symbol-extractor/symbol_extractor.ts:84-96 | A bundle with `toString` does not match a golden list with `toString` |
| `SymbolDiff.ProtoGoesUnnoticed` | tools/symbol-extractor/symbol_extractor.ts:84-87 | An expected `__proto__` that is missing is not reported |
| `SymbolDiff.CompareAndPrintError` | tools/symbol-extractor/symbol_extractor.ts:111-125 | The check passes exactly under the condition of `EmptyIff` |
| `VersionOrder.CompareNumbers` | packages/compiler-cli/src/version_helpers.ts:39-65 | The result is the sign of the lexicographic order of the versions continued with zeros |
| `VersionOrder.TotalPreorder` | packages/compiler-cli/src/version_helpers.ts:28-38 | That order is total, exclusive and transitive |
| `VersionOrder.SameIffTrimmedEqual` | packages/compiler-cli/src/version_helpers.ts:31-32 | Versions compare as equal exactly when they agree after dropping trailing zeros |
| `VersionOrder.IsVersionBetween` | packages/compiler-cli/src/version_helpers.ts:76-83 | Membership in the closed interval, open above when no upper bound is given |

## Left out

- Strings in the constant pool are character sequences; that the length of a string counts UTF-16 code units matters only for the threshold of long strings.
- A fix-up inside an expression is its position in the pool's list of fix-ups; the class keeps the objects themselves.
- `getSharedConstant`, `getSharedFunctionReference`, `isEquivalent` and the output AST beyond the kinds that have keys: other kinds are opaque values that are not constant.
- PoolTheorems.ConstantsKeepMeaning: a pooled literal other than a string that stands alone must be readable (a string or module name in it does not hold both a double quote and a comma, a quoted key not both a double quote and a colon, and unquoted keys and other names hold no delimiter of the key grammar), spelled from an unmixed set, and must not read a `_cN` name before it is handed out; literals that are not pooled are not limited. `MeaningIffAlphabetSafe` says how far alphabet and spelling reach.
- PoolTheorems.FactoriesKeepMeaning: object values are compared as lists of fields in the order written, and the arguments are evaluated once.
- Watch mode: callbacks of the host that throw, changes by others in the middle of a compilation, diagnostics, and the real clock and file watcher, which are steps of the state machine.
- WatchSession.Session.DoCompilation: what the compiler does with the previous program, which it is handed at most once.
- WatchProofs.ReadIsUncached: a cached source file ignores the language version; the statement gives the exact condition.
- ParseLocation.GetContext: locations without an offset, for which the result is null.
- Statistic.CalculateStandardDeviation: the square root is a parameter; the coefficient of variation is a quotient of modelled results.
- WatchProofs.CacheCoherent: one direction; the exact statement about cached answers is that of `WatchReads`.
- Statistic.CalculateRegressionSlope: exact reals instead of floating-point numbers; a division by zero is the absence of a result, as are more x than y values.
- `CssSelector.parse`, which produces the selectors that are encoded.
- ExtendedOptions.OptionsAreFirstDefined: reading and parsing of files and resolution of `extends` paths; configurations form a finite tree, so cyclic `extends` are not modelled.
- Sampler.SampleReports: failures of driver, metric or reporter; time stamps and measurements are inputs.
- StyledMessage.StyledMessageShows: of the codes a terminal obeys only those that switch red and bold on and off; any other escape sequence shows nothing up to its `m`, also one that a terminal ends earlier, such as that for clearing the screen.
- SymbolExtractor.Parse: syntax trees by the kinds the visitor tells apart; names are ordered by characters rather than by UTF-16 code units; any sort has this result.
- SymbolDiff.CompareAndPrintError: the lines printed for each difference.
- VersionOrder.CompareNumbers: the parsing of version strings; components are natural numbers, as the code documents.
