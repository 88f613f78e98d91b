# Models of the build, command-line and documentation code

This project models the parts of the repository in which a small body of code carries a
non-obvious promise, and proves the promise for all inputs, all runs or all reachable states.

* `NumberTheory.dfy`, `PollardRho.dfy`, `Factor.dfy`: the `factor` command. Trial division,
  Pollard's rho with Brent's cycle finding and batched gcds, the recursive driver and the sort.
  The random generator is any list of answers; a run that is still retrying when the list is used
  up is `OutOfDraws`, one that ends is `Finished`.
* `Dependencies.dfy`, `ModulesChooser.dfy`: which modules a Botan build loads. The order in
  which Python walks a set is a parameter or nondeterministic choice, and a logged error ends the
  run.
* `Amalgamation.dfy`: flattening the headers into one by depth-first expansion of includes.
* `TlsProxy.dfy`: the two double-buffered asynchronous writers of the TLS proxy and its shutdown.
  All handlers run on one strand, so an execution is a sequence of events.
* `TimingTests.dfy`: the Fisher-Yates shuffle and the two measurement loops that use it.
* `Zfec.dfy`: share files, encoding and recovery of the forward error correction commands.
* `ArgParse.dfy`: command specifications and the parsing of command lines against them.
* `CcEnc.dfy`: Luhn check digits around format-preserving encryption.
* `Text.dfy`, `Entities.dfy`, `Highlight.dfy`: the highlighter's HTML and the line-by-line parser
  that reads it back.
* `Wrappers.dfy`: optional values and results that may be errors.

Code that updates variables, arrays or fields is a method or a class here, and each method is
proved against a specification function; the lemmas are about those functions.

## Where the code does less than one would expect

* `factor` cannot always finish. On 125 times a power of two trial division takes out only one 5,
  and rho fails on the remaining 25 from every start (`Factor.StuckOn125`). On 1125 = 9 * 125 it
  leaves 75, on which rho finds nothing but the 3, and then the same 25 is left
  (`Factor.StuckOn1125`). Finishing on some draws and never being lost are different things: 15125 =
  125 * 121 leaves 275, of which rho returns 25 from start 3, and the run finishes, but 11 from
  start 4, and then the 25 stays for ever (`Factor.DrawsDecideOn15125`). Two predicates of n and the
  table, without any draws, say exactly when: some draws make `factor` finish if and only if
  `Factor.CanFinish` holds (`Factor.FinishesIff`), and no draws can lose it if and only if
  `Factor.Safe` holds (`Factor.NeverLostIff`).
* `remove_small_factors` is said to remove all factors below 2^16. It removes one copy of each odd
  prime of the table: 27 leaves 9 (`Factor.RestOf27`). A table prime is left over if and only if
  its square divides the number (`Factor.LeftOver`, `Factor.AllRemoved`).
* Which alternative of a dependency `a|b` is loaded depends on Python's set order: the same call
  loads r with a in one order and r with b in another (`Dependencies.OrderMatters`). Whether a
  module can be loaded does not depend on it, and nothing does when each dependency that the roots
  lead to has one resolvable alternative (`Dependencies.OrderIrrelevant`).
* A module that the policy requires is skipped without an error when its dependencies cannot be
  resolved, and apart from the two modules that `choose` drops by name only then
  (`ModulesChooser.RequiredFate`, `ModulesChooser.RequiredCanFail`).
* A proxy session that is stopped, by a call or by a failed write, closes its client socket from a
  handler, later writes succeeding, if and only if the event was not a failed client write and
  something was left to send, the closing bytes included (`TlsProxy.ClosesIffWriteOutstanding`).
  After a close-notify it does so, nothing more being emitted, if and only if something was left
  to send (`TlsProxy.ClosesAfterCloseNotify`).
* `fec_encode` accepts k = n and n = 256, but `fec_decode` refuses every file it then writes
  (`Zfec.AllRefused`).
* `fec_decode` does not always stay inside its buffer. The length of the data before hash and
  padding is computed without a sign and wraps around if and only if the shares it reassembles are
  too short to hold hash and padding (`Zfec.LengthWraps`, `Zfec.LeavesBufferIff`). One well-formed
  file of 44 bytes is enough (`Zfec.EmptyShareLeavesBuffer`). With a share that `fec_encode` wrote
  among those accepted it does not happen (`Zfec.EncodedStaysInBuffer`).
* The early-exit path of the MARVIN loop does not count the run that was interrupted, although it
  was measured: the report holds every measurement if and only if no run is interrupted
  (`TimingTests.MarvinMeasure`, `TimingTests.MarvinReport`).
* Luhn's formula detects every single wrong digit (`CcEnc.OneDigitDetected`), and the exchange of two
  different neighbours if and only if they are not 0 and 9 (`CcEnc.ExchangeDetectedIff`).
* A highlighted text comes back unchanged exactly when no token spans lines and no piece of it
  spells out one of four entities (`Highlight.RoundTrip`). What comes back otherwise is
  `Highlight.AllShown`.

## Model
| member | source | states |
|---|---|---|
| NumberTheory.UniqueFactorisation | botan-master-master/src/cli/math.cpp:100-111 | two nondecreasing lists of primes with the same product are the same list, so what `factor` prints does not depend on the random generator |
| NumberTheory.PrimeFactorsCorrect | botan-master-master/src/cli/math.cpp:100-111 | the reference factorisation exists for every n >= 1: sorted, all prime, with product n |
| PollardRho.Rho | botan-master-master/src/cli/math.cpp:144-199 | the loop keeps Brent's invariant (x is the walk at i - 1, y the walk at the anchor of the block, z the product since the last gcd, no gcd so far revealing), leaves at the first counter whose batched gcd is not 1, or at the bail-out limit, and returns that gcd, or 0 when it is n or the limit was reached |
| PollardRho.BatchIsProduct | botan-master-master/src/cli/math.cpp:170-176 | what a gcd is taken of is the product modulo n of exactly the differences y - x since the last gcd |
| PollardRho.BatchSize | botan-master-master/src/cli/math.cpp:178-189 | at most 128 differences go into one gcd |
| PollardRho.ChecksBetweenPowers | botan-master-master/src/cli/math.cpp:178-189 | between two powers of two the gcds are taken exactly at the multiples of 128 |
| PollardRho.LeavesOnce | botan-master-master/src/cli/math.cpp:144-199 | a call leaves at one counter only, so its answer is a function of n and the random start |
| PollardRho.AnswerMeaning | botan-master-master/src/cli/math.cpp:157-199 | the answer is the greatest common divisor of n and the product of the differences since the last gcd, at the first counter below the limit where that is not 1, unless it is n; in every other case it is 0 |
| PollardRho.BlockOfPower | botan-master-master/src/cli/math.cpp:191-194 | the anchor really moves at the powers of two: for 2^e < i <= 2^(e+1) it was taken at 2^e |
| PollardRho.RhoValueDivides | botan-master-master/src/cli/math.cpp:157-199 | a call returns 0 or a divisor d of n with 1 < d < n |
| PollardRho.MeetsAnchor | botan-master-master/src/cli/math.cpp:157-195 | pigeonhole: for a divisor p <= 2^e of n, some counter in (2^e, 2^(e+1)] has a difference y - x divisible by p |
| PollardRho.BatchKeeps | botan-master-master/src/cli/math.cpp:172-189 | once p divides the batch, the next gcd, at the latest the one at the end of the block, is not 1: batching skips no collision |
| PollardRho.LeavesBefore4p | botan-master-master/src/cli/math.cpp:157-195 | detection bound: for any divisor p > 1 of n the loop has left before its counter reaches 4p |
| PollardRho.NoBailOut | botan-master-master/src/cli/math.cpp:160-163 | with a divisor up to 2^30 the 0xFFFF0000 bail-out is never taken |
| PollardRho.NoBailOutBelow2To60 | botan-master-master/src/cli/math.cpp:160-163 | in particular for every composite n below 2^60 |
| PollardRho.FivesTogether | botan-master-master/src/cli/math.cpp:144-199 | when 25 divides n the loop has left by counter 8, and its gcd holds no 5 or both: the two fives are never separated |
| PollardRho.OnlyThreeOutOf75 | botan-master-master/src/cli/math.cpp:144-199 | on n = 75 every start yields 3 or fails |
| PollardRho.StartDecidesOn275 | botan-master-master/src/cli/math.cpp:144-199 | on n = 275 the answer is 25 from start 3 and 11 from start 4 |
| PollardRho.NeverSplits25 | botan-master-master/src/cli/math.cpp:144-199 | on n = 25 every start fails: the first gcd that is not 1 is 25 itself |
| Factor.RemoveSmallFactors | botan-master-master/src/cli/math.cpp:202-229 | strips every 2 and exactly one copy of each table prime that divides the odd part; product conserved, returned factors prime, remainder odd; stopping early at a prime above n misses nothing |
| Factor.OtherPrimes | botan-master-master/src/cli/math.cpp:217-226 | dividing out one prime changes the divisibility by no other, so one pass over the table is enough |
| Factor.LeftOver | botan-master-master/src/cli/math.cpp:201-229 | a prime of the table divides what is left if and only if its square divides n |
| Factor.AllRemoved | botan-master-master/src/cli/math.cpp:201-229 | the promise that all small factors are removed holds if and only if no square of a table prime divides n |
| Factor.RestOf27 | botan-master-master/src/cli/math.cpp:201-229 | 27 leaves 9 |
| Factor.FinishesIff | botan-master-master/src/cli/math.cpp:114-138 | some draws of the random generator make the driver finish on n if and only if n can be finished: what trial division leaves is 1, a prime, or split by rho from some start into two parts that can be finished |
| Factor.NeverLostIff | botan-master-master/src/cli/math.cpp:114-138 | whatever has been drawn, the run can still finish if and only if n is safe: what trial division leaves is 1, a prime, or split by rho from some start, and every split rho can find leaves two safe parts |
| Factor.LosingDraws | botan-master-master/src/cli/math.cpp:114-138 | on every other n some draws lose the run: nothing that follows them finishes |
| Factor.FinishedStays | botan-master-master/src/cli/math.cpp:114-138 | a run that has finished does not depend on further draws |
| Factor.DrawsDecideOn15125 | botan-master-master/src/cli/math.cpp:114-138 | 15125 times a power of two can be finished, and is lost for ever when the first draw is 2 |
| Factor.FinishingDraws | botan-master-master/src/cli/math.cpp:114-138 | on every such n there are draws with which it finishes, consuming exactly those |
| Factor.Factorize | botan-master-master/src/cli/math.cpp:114-138 | every call of rho gets an odd n > 5 and a start in range, the recursion decreases, the outcome is the specified function of the draws, and a finished run returns primes with product n, where n can be finished; it finishes without a draw when trial division leaves 1 or a prime |
| Factor.Go | botan-master-master/src/cli/math.cpp:100-111 | whatever the random generator answers, a finished run prints the one nondecreasing list of primes with product n, and finishes exactly when the driver does on these draws |
| Factor.SortProduct | botan-master-master/src/cli/math.cpp:104 | sorting keeps the product |
| Factor.StuckOn125 | botan-master-master/src/cli/math.cpp:114-138 | 125 times any power of two cannot be finished |
| Factor.StuckOn1125 | botan-master-master/src/cli/math.cpp:114-138 | nor can 1125 times any power of two, although rho splits what trial division leaves |
| Dependencies.ResolveDependencies | botan-master-master/configure.py:2637-2676 | computes the specified function of the order in which sets are walked; succeeds exactly when the module is in some set of available modules that support each other given what is loaded |
| Dependencies.ResolveMeaning | botan-master-master/configure.py:2637-2676 | for every order, cycles included, success is that resolvability, and a success meets every dependency of what it adds and adds nothing that the module does not reach through loaded modules |
| Dependencies.GreatestIsGreatest | botan-master-master/configure.py:2637-2676 | with nothing loaded, the modules on which it succeeds form the greatest self-supporting subset of the available ones |
| Dependencies.Unresolvable | botan-master-master/configure.py:2661-2674 | failing at one dependency after trying every alternative on top of what has been loaded means the module was not resolvable to begin with: no backtracking is needed |
| Dependencies.ResolveAll | botan-master-master/configure.py:2684-2698 | in any order of the roots the loaded set is what their calls load together; it is closed, within the available modules, holds exactly the resolvable roots, and nothing that no loaded root leads to through loaded modules |
| Dependencies.LeastClosed | botan-master-master/configure.py:2637-2676 | without alternatives one successful call returns the least closed set around the module |
| Dependencies.LeastClosedOverRoots | botan-master-master/configure.py:2684-2698 | without alternatives the loaded set is the least closed set over the resolvable roots |
| Dependencies.OrderIrrelevant | botan-master-master/configure.py:2684-2698 | any two orders of alternatives load the same roots, and the same modules when each dependency the roots can lead to has exactly one resolvable alternative |
| Dependencies.ForcedSame | botan-master-master/configure.py:2637-2676 | for one call: when every dependency its run finds unmet has at most one alternative that can be loaded at that point, every other order loads the same modules |
| Dependencies.TakenForcedIff | botan-master-master/configure.py:2658-2671 | at an unmet dependency the alternative taken is the same in every order if and only if at most one can be loaded |
| Dependencies.MeetTakes | botan-master-master/configure.py:2658-2674 | at an unmet dependency the resolver goes on with exactly what the first loadable alternative loads, and fails when there is none |
| Dependencies.PreferredIsLoaded | botan-master-master/configure.py:2661-2671 | of free alternatives the resolver loads the one its order puts first, and no other |
| Dependencies.OrderMatters | botan-master-master/configure.py:2663-2671 | so with two of them there are two orders for which the program loads different modules |
| ModulesChooser.ModulesChooser.CheckUsable | botan-master-master/configure.py:2504-2523 | True exactly on usable modules; any other is recorded under the first reason in the order of the checks, and nothing else is recorded |
| ModulesChooser.ModulesChooser.HandleByModulePolicy | botan-master-master/configure.py:2608-2634 | required comes before if_available before prohibited; what each does to the sets and which reason it records, and when it is an error |
| ModulesChooser.ModulesChooser.HandleByLoadOn | botan-master-master/configure.py:2704-2725 | the method gives the module what its verdict says; the verdicts have the meaning of FirstPassMeaning |
| ModulesChooser.ModulesChooser.FirstPass | botan-master-master/configure.py:2728-2742 | in any order of modules, the sets after the loop are those of the verdicts and each reason holds exactly its modules; the run stops exactly when some verdict is an error. What the verdicts are is said by FirstPassMeaning and ReasonsMeaning |
| ModulesChooser.ModulesChooser.FirstPassMeaning | botan-master-master/configure.py:2608-2742 | in terms of the configuration alone: the pass stops exactly on a misconfigured module; otherwise it loads the fit modules that the policy or the user asks for, that are load_on always, or load_on auto with neither a policy nor autoloading turned off, and keeps the other fit ones of load_on auto or dep for dependencies |
| ModulesChooser.ModulesChooser.WantedLoaded | botan-master-master/configure.py:2684-2766 | such a module, unless dropped by name, is loaded if and only if it can be resolved among the fit modules that are asked for or load_on always, auto or dep |
| ModulesChooser.ModulesChooser.LoadedForCause | botan-master-master/configure.py:2684-2766 | and whatever is loaded is led to, through loaded modules, by such a module |
| ModulesChooser.ModulesChooser.ChosenExplained | botan-master-master/configure.py:2608-2766 | with a policy or without autoloading every loaded module is led to by one that is required, if_available, enabled or load_on always; with neither, every fit auto or always module is loaded exactly when it can be resolved; a module nobody asked for with load_on never, request or vendor is not loaded and, if fit, has the reason for it, and one with load_on dep is loaded only as a dependency of another |
| ModulesChooser.ModulesChooser.ReasonsMeaning | botan-master-master/configure.py:2504-2766 | for each of the fifteen reasons, the configurations in which a module has it |
| ModulesChooser.ModulesChooser.RefusedAre | botan-master-master/configure.py:2728-2742 | the modules with a recorded reason are exactly those the verdicts refuse |
| ModulesChooser.ModulesChooser.ResolveDependenciesForAllModules | botan-master-master/configure.py:2684-2702 | the roots that are not loaded, and no others, get the reason 'dependency failure'; what was loaded leaves maybe_dep |
| ModulesChooser.ModulesChooser.ValidateState | botan-master-master/configure.py:2568-2574 | accepts exactly the states in which no loaded module has a reason for not being used |
| ModulesChooser.ModulesChooser.Choose | botan-master-master/configure.py:2727-2766 | the InternalError is unreachable; a run stops on every misconfigured module and otherwise only when nothing but virtual modules is loaded; one that does not stop loads what ChosenExplained says, records exactly the reasons of ReasonsMeaning, and accounts for every module, loaded or with a reason and never both; a required module is loaded exactly when it can be resolved |
| ModulesChooser.ModulesChooser.RequiredFate | botan-master-master/configure.py:2608-2702 | a module the policy requires, if not one of the two dropped by name, is loaded if and only if its dependencies can be resolved |
| ModulesChooser.ModulesChooser.RequiredCanFail | botan-master-master/configure.py:2608-2702 | a configuration in which a required module ends under 'dependency failure' and no error is logged |
| ModulesChooser.ModulesChooser.EveryModule | botan-master-master/configure.py:2727-2766 | the verdicts, the two special cases and the outcome of the resolution partition all modules |
| Amalgamation.BotanIncludeIs | botan-master-master/configure.py:2832-2852 | a line that holds "#include <botan/" includes the header named from there to the last ">", wherever in the line it stands |
| Amalgamation.NoBotanInclude | botan-master-master/configure.py:2832-2852 | a line without that text includes none |
| Amalgamation.StdIncludeIs | botan-master-master/configure.py:2838-2862 | a line that begins with the include of a name without slash or dot is that standard include |
| Amalgamation.StddefIncludeIs | botan-master-master/configure.py:2838-2862 | so is one that begins with the include of stddef.h, the dot standing for any character |
| Amalgamation.NoStdInclude | botan-master-master/configure.py:2838-2862 | no other name with a slash or a dot is one |
| Amalgamation.NormalizeInternal | botan-master-master/configure.py:2898-2898 | the prefix internal/ is taken off a header's name, and nothing else is changed |
| Amalgamation.Conservation | botan-master-master/configure.py:2888-2923 | cycles or not, the amalgamation holds every kept line of every live header exactly once and in order, and no line of any other |
| Amalgamation.DeprecatedEmitsNothing | botan-master-master/configure.py:2897-2923 | a header that holds the marker line with its own name contributes nothing, any other all its kept lines |
| Amalgamation.KeptFromMeaning | botan-master-master/configure.py:2912-2923 | the kept lines are exactly those that are neither a Botan include nor a hoisted include, in file order |
| Amalgamation.OnlyKeptLines | botan-master-master/configure.py:2912-2923 | no Botan include and no hoisted include survives, and every emitted line is a line of a live header |
| Amalgamation.Order | botan-master-master/configure.py:2897-2923 | with acyclic includes, whenever a line is emitted all headers that the includes above it bring in, through however many headers, have been emitted completely |
| Amalgamation.BringsInFurther | botan-master-master/configure.py:2912-2917 | bringing in goes through any chain of live headers, those without a line of their own included |
| Amalgamation.OrderOfLines | botan-master-master/configure.py:2897-2923 | a line of a header that an include brings in, directly or through others, stands before every line that follows the include |
| Amalgamation.OrderOfIncludeLines | botan-master-master/configure.py:2897-2923 | in terms of the text: when a line of a header reads as the include of b, with or without internal/, and b is a file and not deprecated, every line of b and of what b brings in stands before every later line of that header |
| Amalgamation.AmalgamationHeader.HeaderContents | botan-master-master/configure.py:2897-2923 | over the shared sets of the object: the text of the expansion, the headers marked, and the unconditional standard includes of exactly the newly marked headers |
| Amalgamation.AmalgamationHeader.constructor | botan-master-master/configure.py:2874-2895 | the contents are the expansion of all files, and the hoisted set is exactly the unconditional standard includes of the live headers |
| Amalgamation.IncludeIsHoisted | botan-master-master/configure.py:2912-2923 | the include of a plain name or of stddef.h at the beginning of a line of a live header is in the hoisted set |
| TlsProxy.EmitSound | botan-master-master/src/cli/tls_proxy.cpp:229-248 | emitting keeps a writer sound: no byte lost, doubled or moved, at most one write, its buffer untouched, no data waiting without a write |
| TlsProxy.CompleteSound | botan-master-master/src/cli/tls_proxy.cpp:198-211 | so does a completion, which delivers exactly the buffer in flight |
| TlsProxy.StepInvariant | botan-master-master/src/cli/tls_proxy.cpp:136-269 | every event of the session keeps both writers sound and the shutdown flags consistent, with every failed write having stopped the session |
| TlsProxy.Reachable | botan-master-master/src/cli/tls_proxy.cpp:136-269 | so every state any sequence of events can reach is sound |
| TlsProxy.Conservation | botan-master-master/src/cli/tls_proxy.cpp:198-248 | over any run, delivered ++ in flight ++ pending is all that the events emitted to the client, closing bytes included |
| TlsProxy.ServerConservation | botan-master-master/src/cli/tls_proxy.cpp:213-269 | the same towards the server |
| TlsProxy.ClosedAfterDelivery | botan-master-master/src/cli/tls_proxy.cpp:198-211 | the client socket is closed only by a successful completion with TLS closed, and then everything emitted has been delivered |
| TlsProxy.ClosesWhenQuiet | botan-master-master/src/cli/tls_proxy.cpp:198-211 | once TLS is closed and nothing more is emitted, an outstanding write leads to the close with exactly the first completion, or the second when data was pending |
| TlsProxy.ClosesAfterCloseNotify | botan-master-master/src/cli/tls_proxy.cpp:198-328 | after the close-notify of the client, nothing more emitted and writes succeeding, its socket is closed if and only if something was left to send |
| TlsProxy.ClosesAfterStop | botan-master-master/src/cli/tls_proxy.cpp:136-211 | after stop, with a write outstanding and writes succeeding, the socket is closed by exactly the first completion, or the second when data was pending |
| TlsProxy.StaysAsItIs | botan-master-master/src/cli/tls_proxy.cpp:136-211 | a stopped session with no write outstanding never changes its client socket again |
| TlsProxy.ClosesIffWriteOutstanding | botan-master-master/src/cli/tls_proxy.cpp:136-222 | however a session is stopped, by a call, a failed server write or a failed client write, its handlers close the client socket, writes succeeding, if and only if it was not the last and something was left to send |
| TlsProxy.FailedWrite | botan-master-master/src/cli/tls_proxy.cpp:198-222 | a failed write stops the session, delivers nothing, leaves what was to be sent where it is and starts no further write in its direction |
| TlsProxy.FailedForGood | botan-master-master/src/cli/tls_proxy.cpp:198-248 | and nothing that happens later delivers anything in that direction or starts a write |
| TlsProxy.TlsProxySession.TlsEmitData | botan-master-master/src/cli/tls_proxy.cpp:229-248 | the handler on the object's fields is the step of the model |
| TlsProxy.TlsProxySession.ProxyWriteToServer | botan-master-master/src/cli/tls_proxy.cpp:250-269 | likewise |
| TlsProxy.TlsProxySession.StopSession | botan-master-master/src/cli/tls_proxy.cpp:136-151 | likewise; the second call does nothing |
| TlsProxy.TlsProxySession.TlsAlertCloseNotify | botan-master-master/src/cli/tls_proxy.cpp:323-328 | likewise |
| TlsProxy.TlsProxySession.HandleClientWriteCompletion | botan-master-master/src/cli/tls_proxy.cpp:198-211 | likewise, for success and failure |
| TlsProxy.TlsProxySession.HandleServerWriteCompletion | botan-master-master/src/cli/tls_proxy.cpp:213-222 | likewise, for success and failure |
| TimingTests.ShuffleIdx | botan-master-master/src/cli/timing_tests.cpp:87-96 | the in-place loop computes the shuffle given by the residues of its random words |
| TimingTests.ShufflePermutes | botan-master-master/src/cli/timing_tests.cpp:87-96 | the result is a permutation of the input |
| TimingTests.ShuffleInjective | botan-master-master/src/cli/timing_tests.cpp:87-96 | different choices produce different permutations |
| TimingTests.ShuffleSurjective | botan-master-master/src/cli/timing_tests.cpp:87-96 | every permutation is produced |
| TimingTests.ShuffleBijective | botan-master-master/src/cli/timing_tests.cpp:87-96 | so each permutation of distinct elements comes from exactly one vector of choices |
| TimingTests.ShuffleFromDraws | botan-master-master/src/cli/timing_tests.cpp:87-96 | the draws give a certain permutation exactly when their remainders are its choices, and drawing these choices themselves gives it |
| TimingTests.MeasureRun | botan-master-master/src/cli/timing_tests.cpp:429-431 | over shuffled indexes every test case is measured, and its result is its own |
| TimingTests.ExecuteEvaluation | botan-master-master/src/cli/timing_tests.cpp:401-443 | whatever the shuffles, the k-th result of each test case is its measurement in the k-th run after the warm-up; too large counts are rejected |
| TimingTests.MarvinRun | botan-master-master/src/cli/timing_tests.cpp:684-699 | the assertion that each series has exactly r entries always holds, and each series grows by one |
| TimingTests.MarvinMeasure | botan-master-master/src/cli/timing_tests.cpp:666-709 | completed runs are those before the interruption; every series holds exactly these, and after an early exit one measurement more |
| TimingTests.ReportResults | botan-master-master/src/cli/timing_tests.cpp:715-744 | row r, column t is measurement r of test case t, and every access is in range |
| TimingTests.MarvinReport | botan-master-master/src/cli/timing_tests.cpp:666-744 | the report's row r, column t is what test case t took in run r, in file order; it holds every measurement if and only if no run is interrupted |
| Zfec.SerializeTo | botan-master-master/src/cli/zfec.cpp:86-104 | writes header, share and hash |
| Zfec.SerializedParts | botan-master-master/src/cli/zfec.cpp:86-104 | which byte of a written share holds what |
| Zfec.Deserialize | botan-master-master/src/cli/zfec.cpp:46-84 | accepts and rejects as specified, with the first objection reported |
| Zfec.ReadAfterWrite | botan-master-master/src/cli/zfec.cpp:46-104 | any written share reads back cut to its bytes or is refused for its fields; it reads back as itself if and only if share < n, k < n, padding < k and n <= 255 |
| Zfec.WriteAfterRead | botan-master-master/src/cli/zfec.cpp:46-104 | any bytes that read as a share are exactly what writing that share gives |
| Zfec.Pad | botan-master-master/src/cli/zfec.cpp:144-149 | the loop adds the least number of zeros, fewer than k, that makes the length a multiple of k |
| Zfec.PaddingIsLeast | botan-master-master/src/cli/zfec.cpp:144-149 | no smaller padding does |
| Zfec.FecEncode | botan-master-master/src/cli/zfec.cpp:124-177 | for the parameters the code accepts, one file for each share of input, hash and padding |
| Zfec.CheckShares | botan-master-master/src/cli/zfec.cpp:213-231 | succeeds exactly when all shares agree with the first, although "nothing seen yet" is recognised by three zeros |
| Zfec.FillBuffer | botan-master-master/src/cli/zfec.cpp:241-253 | the callback lays the blocks out in order and without overlap, in whatever order they come |
| Zfec.FecDecode | botan-master-master/src/cli/zfec.cpp:190-269 | the command computes Decoded: every refusal it has, and what it recovers, up to the point at which it would leave its buffer; what that is is said by DecodedMeaning, Recovery and LeavesBufferIff |
| Zfec.DecodedMeaning | botan-master-master/src/cli/zfec.cpp:241-269 | when the accepted shares can be decoded to d: x is given out if and only if d is x, its hash and the padding; the digest error comes exactly when the hash in d is not that of what precedes it, and the padding error exactly when it is but what follows is not zeros |
| Zfec.LastShareCounts | botan-master-master/src/cli/zfec.cpp:249-253 | of several accepted shares with one number the last counts |
| Zfec.LengthWraps | botan-master-master/src/cli/zfec.cpp:255 | the unsigned length lies within the buffer if and only if hash and padding fit |
| Zfec.LeavesBufferIff | botan-master-master/src/cli/zfec.cpp:207-269 | decoding leaves its buffer if and only if the shares agree, are enough and can be decoded, and k times their size is less than hash and padding |
| Zfec.EncodedStaysInBuffer | botan-master-master/src/cli/zfec.cpp:124-269 | decoding stays inside its buffer when any accepted share was written by the encoder |
| Zfec.EmptyShareLeavesBuffer | botan-master-master/src/cli/zfec.cpp:190-269 | one file of 44 bytes does, for every hash and erasure code |
| Zfec.Recovery | botan-master-master/src/cli/zfec.cpp:190-269 | k or more distinct shares, in any order, repeated, and mixed with files that are no shares, give back exactly the input |
| Zfec.AllRefused | botan-master-master/src/cli/zfec.cpp:46-84 | with k = n or n = 256 every file of the encoding is refused |
| Zfec.RoundTrip | botan-master-master/src/cli/zfec.cpp:124-269 | for the parameters the encoder accepts, decoding all files gives the input back if and only if k < n <= 255 |
| ArgParse.SplitOn | botan-master-master/src/cli/argparse.h:54-78 | the runs free of the delimiter, or an error exactly when a nonempty string ends with it |
| ArgParse.SplitOfJoin | botan-master-master/src/cli/argparse.h:54-78 | splitting undoes joining of nonempty delimiter-free parts |
| ArgParse.RunsArePieces | botan-master-master/src/cli/argparse.h:54-78 | splitting yields nothing but such parts, so the "shouldn't happen" branch of the constructor cannot |
| ArgParse.ArgumentParser.ReadSpec | botan-master-master/src/cli/argparse.h:212-269 | the constructor fills the object with what the specification declares, or fails |
| ArgParse.ArgumentParser.ParseArgs | botan-master-master/src/cli/argparse.h:133-210 | the loops over the object's fields compute the parse, errors included |
| ArgParse.ReadWordsMeaning | botan-master-master/src/cli/argparse.h:135-169 | the options are read exactly when all are known and none is repeated, and recorded exactly as given |
| ArgParse.ParseMeaning | botan-master-master/src/cli/argparse.h:133-210 | for distinct names and no --help: a line is accepted exactly when its words are, and then assigns each argument its text, each option its value or default, the flags given and the rest |
| ArgParse.ParseHelp | botan-master-master/src/cli/argparse.h:171-173 | with --help and the flags and options in order, the line stands for these flags and options and nothing else: the positional arguments are not looked at and no default is filled in |
| ArgParse.FirstObjection | botan-master-master/src/cli/argparse.h:135-169 | the first flag or option that is unknown, without its value or repeated is the one objected to, with the error for that |
| ArgParse.PositionalObjections | botan-master-master/src/cli/argparse.h:171-203 | the flags and options being in order: which of the three errors about positional arguments comes, exactly |
| ArgParse.RenderRead | botan-master-master/src/cli/argparse.h:135-168 | writing a word and reading it gives the word |
| ArgParse.ReadRender | botan-master-master/src/cli/argparse.h:135-168 | every parameter is the rendering of the word it reads as |
| ArgParse.ParseOfRendered | botan-master-master/src/cli/argparse.h:133-210 | any assignment, rendered in any interleaving, parses back to exactly that assignment |
| ArgParse.ArgumentParser.GetArgList | botan-master-master/src/cli/argparse.h:125-131 | the rest, or the argument cut at commas, or an error |
| ArgParse.ListMeaning | botan-master-master/src/cli/argparse.h:54-131 | there is no list exactly for a name without a value or with one that ends with a comma; any comma separates the items before it from those after it |
| ArgParse.ListsOfRendered | botan-master-master/src/cli/argparse.h:125-210 | a list given as an option value joined by commas is read back item by item, and the rest argument is everything after the named ones |
| ArgParse.DeclareMeaning | botan-master-master/src/cli/argparse.h:227-261 | words are declared exactly when the rest argument is last, single and long enough, and declare exactly what they name |
| ArgParse.SpecOfRendered | botan-master-master/src/cli/argparse.h:212-269 | a specification string written from any words declares exactly these words, the first value of a repeated option counting, or is rejected for its rest argument |
| ArgParse.SpecErrors | botan-master-master/src/cli/argparse.h:212-261 | a specification is refused as not splittable exactly when it ends with a blank, and as invalid exactly when it can be split and has no command name or a misplaced rest argument |
| ArgParse.ExtrasMeaning | botan-master-master/src/cli/argparse.h:263-268 | the extra flags and options are declared too, an extra option with an empty default unless the specification gives one |
| ArgParse.GivenIsFirst | botan-master-master/src/cli/argparse.h:240-244 | among several values for one option the first counts |
| CcEnc.LuhnSumFitsByte | botan-master-master/src/cli/cc_enc.cpp:21-41 | for every 64-bit number the sum stays below 256, so the byte never wraps |
| CcEnc.LuhnChecksum | botan-master-master/src/cli/cc_enc.cpp:21-41 | the byte arithmetic computes the Luhn sum modulo 10 |
| CcEnc.ContributionMeaning | botan-master-master/src/cli/cc_enc.cpp:26-32 | a doubled digit contributes the digit sum of its double, any other digit itself |
| CcEnc.OneDigitDetected | botan-master-master/src/cli/cc_enc.cpp:21-45 | changing any one digit of a valid number makes it invalid |
| CcEnc.ExchangeDetectedIff | botan-master-master/src/cli/cc_enc.cpp:21-45 | exchanging two different adjacent digits of a valid number makes it invalid if and only if they are not 0 and 9 |
| CcEnc.UniqueCheckDigit | botan-master-master/src/cli/cc_enc.cpp:52-60 | exactly one digit completes a prefix to a valid number |
| CcEnc.CcDerank | botan-master-master/src/cli/cc_enc.cpp:52-60 | finds that digit, never returns the error value, and undoes cc_rank |
| CcEnc.ValidIffCompleted | botan-master-master/src/cli/cc_enc.cpp:43-60 | a number is valid exactly when re-completing its prefix gives it back |
| CcEnc.Reassemble | botan-master-master/src/cli/cc_enc.cpp:71-74 | the seven bytes read back are the number, without overflow |
| CcEnc.Transform | botan-master-master/src/cli/cc_enc.cpp:62-92 | for every 64-bit number and whatever the cipher does, the error is returned exactly when its answer exceeds 50 bits, and otherwise the valid number with that prefix |
| CcEnc.EncryptCcNumber | botan-master-master/src/cli/cc_enc.cpp:62-76 | on numbers of up to 16 digits the 50-bit check never fires |
| CcEnc.DecryptCcNumber | botan-master-master/src/cli/cc_enc.cpp:78-92 | likewise |
| CcEnc.RoundTrip | botan-master-master/src/cli/cc_enc.cpp:62-92 | decrypting an encryption gives the valid number with the same prefix, the input itself if and only if it was valid |
| CcEnc.PermutesValidNumbers | botan-master-master/src/cli/cc_enc.cpp:62-92 | on valid numbers of up to 16 digits encryption and decryption are mutually inverse permutations |
| Entities.EscapeIsMask | docs/lib/highlight.ts:15-22 | the chain of replacements writes each special character as its entity and changes nothing else: the later replacements do not disturb the earlier ones |
| Entities.DecodeOfEscape | docs/lib/rehype-zero-highlight.ts:75-82 | decoding an escaped text gives the text with four spellings replaced, because the ampersand is decoded first |
| Entities.DecodeUndoesEscape | docs/lib/rehype-zero-highlight.ts:75-82 | decoding undoes escaping if and only if the text contains none of the four |
| Highlight.HighlightCode | docs/lib/highlight.ts:48-78 | the loop prints the code cut into matches and gaps |
| Highlight.SegmentsAreCode | docs/lib/highlight.ts:60-76 | the pieces put together are the code |
| Highlight.ReadLine | docs/lib/rehype-zero-highlight.ts:44-65 | the inner loop finds the matches of the token expression one after the other and makes a span or a text of each; which it makes is said by ParseToken and LaidOut |
| Highlight.ParseToken | docs/lib/rehype-zero-highlight.ts:44-59 | a printed token is read back as one span of its kind with its decoded text, followed by whatever the rest of the line is read as |
| Highlight.LaidOut | docs/lib/rehype-zero-highlight.ts:39-73 | when no token spans lines, the lines read back hold, in order, a span for each token and a text for each part of a gap, cut at the line ends |
| Highlight.TokensAreMatches | docs/lib/highlight.ts:60-76 | the tokens are the matches, one for one and in order, each with its kind and its part of the code |
| Highlight.NodesOfCode | docs/lib/rehype-zero-highlight.ts:39-73 | for every code in which no token spans lines: one line of nodes for each line of the code, an empty line holding one empty text, and the spans of all lines, in order, exactly the matches with their kinds and respelled texts |
| Highlight.GapRecovered | docs/lib/rehype-zero-highlight.ts:39-73 | text between tokens comes back, respelled, over any number of lines |
| Highlight.TornTokenRecovered | docs/lib/rehype-zero-highlight.ts:39-73 | a token that spans lines comes back with the remains of its two tags around it |
| Highlight.AllRecovered | docs/lib/rehype-zero-highlight.ts:39-73 | the lines, joined, are what each piece shows, for every list of pieces |
| Highlight.RoundTrip | docs/lib/rehype-zero-highlight.ts:39-82 | for every code and every list of matches, the lines joined are the code if and only if no token spans lines and no piece contains one of the four spellings |
| Highlight.HighlightZeroxToHast | docs/lib/rehype-zero-highlight.ts:39-73 | the two loops produce these lines; joined, they are the code under the same if and only if, and without tokens over several lines they are the nodes, spans and line count of NodesOfCode |

## Left out
- `factor` for n <= 0, which the command does not handle: trial division of 0 does not end.
- Exactness of the library: `is_prime` is taken as exact, gcd as the greatest common divisor, the Montgomery representation as residues modulo n, `std::sort` as an insertion sort, which gives the same list.
- The table of small primes, whose file is not part of this model: any increasing list of odd primes. `LIMIT` is 0xFFFF0000; `Rho` takes it as a parameter.
- How likely `factor` is to finish, or to be lost: the random generator is any list of answers. A run that never ends is one that is out of draws for every list.
- Dependencies.OrderIrrelevant: the condition is sufficient, not necessary, and so is the sharper one of `Dependencies.ForcedSame`, because runs that take different alternatives may still load the same modules in the end; at a single dependency the condition is exact (`Dependencies.TakenForcedIff`).
- The constructor of `ModulesChooser` (validation and wildcards of the user's selection) and the splitting of dependency strings at `|`: a dependency is the set of its alternatives, and the order in which Python walks it is a parameter.
- The messages of the display functions; of these only the error for an empty configuration is kept.
- That a loaded `compression` has one of its libraries loaded: the code checks this before dependencies are resolved, and does not promise it.
- Stripping of header guards and reading of files, the banner, and the rendering of the hoisted includes: `AmalgamationHeader` starts from lists of lines, and its order of files is any list of all of them.
- TlsProxy: sockets, reads, logging, the connection to the server and writes before it is up. What the TLS object emits, at any time and when it is closed, is arbitrary.
- TimingTests: clocks are arbitrary durations for each run and test case; the output as seconds, the text format of the report and the parsing of run counts.
- Zfec: the erasure code and the hash are functions with their contracts; names of files.
- Zfec.FecDecode: what the command does once it has left its buffer is not described; `OutsideBuffer` marks that point and is no error the command reports.
- ArgParse: `get_arg_sz` and `get_arg_hex_sz_or` (conversion by the standard library) and the one-line lookups `flag_set`, `has_arg`, `get_arg`, `get_arg_or`. Exceptions are error values; what the object holds after one is not described.
- CcEnc: the cipher is any permutation of [0, 10^15) with its inverse, and arbitrary outside; key derivation and the reading of the command line.
- Highlight: the regular expressions of the grammar, any ordered list of nonempty matches without overlap standing for what they find; the colours, and the search of the tree for code elements with the removal of one final newline.
