# Verified models of the dotnet-rs runtime core

This project models the parts of the dotnet-rs virtual machine whose correctness is hardest to see from one
function body, and proves properties of the models. `dafny verify dfyconfig.toml` checks everything.

**Structured exception handling** (ECMA-335 Partition I section 12.4.2) is the main part.

- `ExceptionData` holds the data: protected sections, handler addresses, the exception mode, frames, stacks.
- `ExceptionMachine` is the engine as the source has it: one mutable object, one method per phase, loops over
  frames, sections and handlers, and the instructions `throw`, `rethrow`, `leave`, `ret`, `endfinally` and
  `endfilter`. Every method is proved equal to a function of `ExceptionSemantics`, which is total: an
  out-of-bounds index or failed `expect` is the result `Panic`. Termination of the mutually recursive phases is
  part of that proof.
- `ClauseParser` is the grouping and sorting of exception clauses; `Nesting` is lexical nesting and what it
  implies for the sorted order.
- `UnwindAgenda`, `UnwindPass`, `UnwindRuns`, `OwedHandlers`, `UnwindTheorems` and `LeaveTheorems` deal with whole
  unwinds. The engine stops at each `finally` or `fault`, hands control to the virtual machine, and later resumes at
  a saved cursor with an instruction pointer that has moved into the handler. The handlers still to run are read off
  once, at the beginning; the theorems show that all stops together serve exactly that list. `HandlerRan` is the
  environment: calls are balanced, the frames below are left alone, control ends inside the handler, and when it ends
  the mode and what is set aside are what they were when it started.
- `WholeInstructions` and `HandlerTheorems` say when a handler sees to that: over every run of a handler,
  `EndFinallyResumesOwnExactlyWhen` gives the events after which its `endfinally` does not resume its own unwind. What
  the engine does with the unwind that it resumes instead is in `Liveness`
  (`EndFinallyReachesItsFrameExactlyWhen`). Both are findings.
- `SearchTheorems` deals with whole searches, with any number of filters executed on the way; `ThrowTheorems`
  joins both passes, from the throw to the catch. `FilterRan` is the environment of a filter: calls are balanced, and
  the mode is what it was when the filter started. By `EndFilterFailsExactlyWhen` that is so in every run of a filter
  whose `endfilter` does not fail; it fails when a `leave`, a `ret` from a guarded block or a caught exception happens
  in a filter or in a method that it calls, which is another finding.
- `FilterTheorems` deals with what happens inside filters, `ReturnTheorems` with `ret` in protected blocks, `Liveness`
  with all reachable states. `ExceptionWitnesses` holds concrete call stacks for the findings.

**Delegates** (ECMA-335 Partition II section 14.6): `DelegateHeap` is the algebra of invocation lists on a heap,
`DelegateMachine` the intrinsics that work on the evaluation stack and the heap.

**Type resolution**: `AssemblyMetadata` is what one assembly says about a name, `TypeResolution` the uncached lookups,
which read and extend the registry of assemblies, `LookupTermination` when they end, `TypeCaches`, `CorlibResolution`
and `CorlibRegistrations` what the caches mean over runs and after registrations, and `TypeLoader` the loader object,
proved against the uncached lookups.

**Other parts**: `StringProbes` (vector probes against their scalar meaning), `Spans` (windows, slicing, overlapping
copies), `SupportSlots` (definition table and contract validation), `RollForward` (framework selection).

## Findings

Some promises of the source do not hold on all inputs. Each comes with its exact condition, and with a concrete input
where it fails on some inputs only.

- A section with two `finally` or `fault` blocks runs only the first on an unwind to a catch, and all of them on an
  unwind to an instruction outside them (`SecondFinallyIsSkipped`, `AllDueRunExactlyWhen`).
- The path that resumes a suspended search after an exception escaped a filter is never taken:
  `begin_throwing` is reached in the mode `Throwing` only. `docs/EXCEPTION_HANDLING.md` lines 91-93 describe it as
  working; the model follows the code (`NestedFilterNeverArises`, `ThrowInFilterDiscardsSuspendedFrames`). Were it
  taken, it would not always restore the frames or the height of the stack (`AbandonedFilterRestores`).
- An exception that is thrown and caught inside a running handler takes away the unwind of that handler. Its
  `endfinally` resumes that unwind if and only if it was the newest one set aside at the throw; otherwise it resumes
  another one, or is an error if none was set aside (`CatchForgetsHandlerUnwind`, `EndFinallyAfterCatchExactlyWhen`,
  `ThrowInsideFinally`, `OwnUnwindIsResumed`).
- The `endfinally` of a handler that a `leave` of its own, a guarded `ret` of a method it called or a caught exception
  has disturbed is an error, or resumes an unwind of a frame further down (`EndFinallyResumesOwnExactlyWhen`). The pass
  then starts below the top frame. It moves the lower frame, or pops frames off the top that are not the ones it has
  finished, and the frame it stops or arrives in is not the top frame (`EndFinallyReachesItsFrameExactlyWhen`,
  `MisplacedEndFinallyStays`, `EndFinallyMovesLowerFrame`, `CatchIsEnteredBelowTop`).
- A `leave`, a `ret` from a guarded block or a caught exception inside a filter, or in a method that it calls, ends the
  filtering mode, and `endfilter` is then an error (`EndFilterFailsExactlyWhen`, `LeaveInsideFilter`,
  `ReturnInsideFilter`, `ThrowInsideFilter`).
- `leave` executed by a handler in the handler's own frame loses the unwind that started the handler
  (`LeaveKeepsHandlerUnwind`, `LeaveInHandlerBreaksEndFinally`, `LeaveInsideFinally`). `ret` loses the unwind of a
  handler further down whenever it has `finally` or `fault` blocks around it (`ReturnKeepsHandlerUnwind`,
  `ReturnUnderFault`), and skips the `finally` block beside a catch that it stands in
  (`FastReturnSkipsNothingExactlyWhen`, `FastReturnSkipsFinally`).
- Unwinds set aside by `leave` survive a throw that removes their frame, and a later `leave` resumes them
  (`EveryStateIsLiveExactlyWhen`, `CatchKeepsPending`, `LeaveAfterCatchResumesStaleUnwind`, `StaleUnwindAborts`).
- An unwind to a catch never drops the active exceptions of the catches it leaves
  (`CaughtExceptionsAreExpectedExactlyWhen`, `OldExceptionStaysActive`). An unwind to an instruction drops those of all
  catches it leaves but the ones that stand behind a block that runs in their section (`CatchesAreDroppedExactlyWhen`,
  `ExceptionOfLateCatchStays`).
- `Delegate.Remove` keeps the identity of the source delegate, so that after removing the first entry `Equals`
  disagrees with the invocation lists (`RemoveKeepsHeadIdentityExactly`, `RemovingTheHeadBreaksEquals`,
  `RemovedHeadDiffers`).
- Registering another assembly under a known name leaves stale cached types (`EntryAfterRegistrationExactly`,
  `StaleEntry`), and so it does, as the registration of a core library does, with well-known types
  (`CorlibAfterRegistrationExactly`, `LateRegistrationExactly`, `OutdatedCell`, `ForwardedAnswerChanges`).
- The directory that a roll-forward policy selects depends on the order of the directory listing when two
  directories stand for one version (`PathIgnoresOrderExactlyWhen`, `LastListedWins`). Every policy but the exact
  match can select an older patch of the requested minor, and Major can miss an installed higher major
  (`SelectionIsRecentExactlyWhen`, `OlderPatchIsSelected`, `MajorSelectsExactlyWhen`, `UsableMajorIsMissed`).
- `string.IndexOf` with a negative start finds nothing instead of failing (`StringProbes.IndexOf`).

## Model

| member | source | states |
|---|---|---|
| ClauseParser.Parse | crates/dotnet-exceptions/src/lib.rs:130-170 | Parsing fails exactly if a catch type does not resolve; otherwise the sections are one per protected range, strictly sorted inner before outer, each with the handlers of its clauses in clause order. |
| ClauseParser.Group | crates/dotnet-exceptions/src/lib.rs:137-156 | The map built by the clause loop holds for every range exactly the handlers of the clauses that protect it, in order. |
| ClauseParser.Collect | crates/dotnet-exceptions/src/lib.rs:158-165 | Draining the map in any key order gives each entry exactly once. |
| ClauseParser.SortByKey | crates/dotnet-exceptions/src/lib.rs:166-168 | The result is strictly sorted by descending start, then ascending end, and a permutation of the input. |
| ClauseParser.ParseIsUnique | crates/dotnet-exceptions/src/lib.rs:137-169 | At most one list of sections is a parse of given clauses: the iteration order of the hash map leaves no trace. |
| ClauseParser.ClauseAppearsOnce | crates/dotnet-exceptions/src/lib.rs:137-169 | Every clause is found in the one section of its range, at the place given by the earlier clauses of that range. |
| ClauseParser.ParseConservesClauses | crates/dotnet-exceptions/src/lib.rs:137-169 | The sections together hold exactly as many handlers as there are clauses. |
| ClauseParser.ContainedComesFirst | crates/dotnet-exceptions/src/lib.rs:166-168 | A section strictly inside another precedes it. |
| Nesting.LaterIsNotNested | crates/dotnet-exceptions/src/lib.rs:166-168 | In sorted order no section is nested in an earlier one. |
| Nesting.LaterSectionsCannotTell | crates/dotnet-exceptions/src/lib.rs:491-513 | For well-nested sorted sections, two instructions of one section lie in the same blocks of every later section; this justifies re-testing later sections with a moved instruction pointer. |
| UnwindAgenda.SweepStopsAtHead | crates/dotnet-exceptions/src/lib.rs:581-662 | From any cursor the section and handler loops stop exactly at the first handler owed, whatever the sections look like; in a section with several blocks the rest is owed as the exit test decides from inside the block that ran. |
| UnwindAgenda.SweepServesAgenda | crates/dotnet-exceptions/src/lib.rs:604-661 | They have then dropped exactly the active exceptions of the catches that hold the instruction and stand before that handler. |
| UnwindAgenda.AgendaSurvivesMove | crates/dotnet-exceptions/src/lib.rs:581-603 | What later sections owe, and how many catches they leave, does not change when the instruction pointer moves within an earlier section. |
| UnwindPass.PassServesAgenda | crates/dotnet-exceptions/src/lib.rs:569-675 | One pass over the call stack stops at the head of what is owed with the frames above popped and the rest untouched, or arrives owing nothing, or is preempted by a type initializer whose wrapping exception it then throws; it never indexes outside the frames. Sections may be any. |
| UnwindRuns.HandleIsPass | crates/dotnet-exceptions/src/lib.rs:175-204 | A call of the engine in the unwinding mode is one pass followed by stopping, restarting with the new exception, or arriving. |
| UnwindRuns.ResumeShape | crates/dotnet-exceptions/src/lib.rs:630-660 | After a stop and any run of the handler that ends in the mode it started in, the unwind is ready again, past that handler, with the frames below untouched. |
| OwedHandlers.OwedIsDue | crates/dotnet-exceptions/src/lib.rs:581-661 | What an unwind owes at its beginning, in order (frames down, sections up, handlers up), is exactly the blocks of the sections it leaves that no runnable block before them cuts off, where all is read off the instruction pointers at the start; a block that holds the instruction itself is among them only if a runnable one comes before it. |
| OwedHandlers.TowardsCatchOwesFirstDue | crates/dotnet-exceptions/src/lib.rs:492-496 | Towards a catch that is the first due handler of each section left. |
| OwedHandlers.DueIsOwedExactlyWhen | crates/dotnet-exceptions/src/lib.rs:492-512 | A due handler is owed if and only if no due handler before it in its section cuts it off: any does towards a catch, and one that holds the target instruction does towards an instruction. |
| OwedHandlers.AllDueRunExactlyWhen | crates/dotnet-exceptions/src/lib.rs:492-512 | Every due handler is owed if and only if none cuts off another. |
| OwedHandlers.SecondFinallyIsSkipped | crates/dotnet-exceptions/src/lib.rs:492-496 | A concrete call stack on which two finally blocks are due and only the first is owed. |
| UnwindTheorems.PassMakesProgress | crates/dotnet-exceptions/src/lib.rs:569-675 | A pass never goes wrong; without type initializers above the target it stops if something is owed and arrives otherwise. |
| UnwindTheorems.ResumeServesHead | crates/dotnet-exceptions/src/lib.rs:633-660 | Each stop and resumption leaves exactly the tail of what was owed. |
| UnwindTheorems.RunEntersOwedHandlers | crates/dotnet-exceptions/src/lib.rs:548-675 | In every run of stops and resumptions, the k-th stop is at the k-th handler owed at the beginning, at its first instruction and in its own frame. |
| UnwindTheorems.ArrivalServedAll | crates/dotnet-exceptions/src/lib.rs:548-677 | When the unwind arrives, the number of stops is the number of handlers owed, so each has run exactly once. |
| UnwindTheorems.NothingLeftTowardsCatch | crates/dotnet-exceptions/src/lib.rs:609-619 | On an unwind to a catch in well-nested sections no active exception is dropped. |
| UnwindTheorems.CatchUnwindEndsInHandler | crates/dotnet-exceptions/src/lib.rs:697-724 | A whole unwind to a catch ends at the catch's first instruction with exactly the target frame and those below it, the exception alone above that frame's stack base, and every other part of the state as at the throw. |
| UnwindTheorems.CaughtExceptionsAreExpectedExactlyWhen | crates/dotnet-exceptions/src/lib.rs:607-619 | After a whole unwind to a catch, the active exceptions of the catching frame are the old ones without those of the catches that the throw left, plus the new one, if and only if the throw left no catch of that frame or none of its exceptions was active. |
| ExceptionWitnesses.OldExceptionStaysActive | crates/dotnet-exceptions/src/lib.rs:609-619 | A throw out of a catch inside a try block: the old exception stays active below the new one. |
| LeaveTheorems.LeaveUnwindEndsAtTarget | crates/dotnet-exceptions/src/lib.rs:684-735 | A whole `leave` has run every finally owed, ends at its target with operand count zero and all other frames untouched, and resumes the newest unwind set aside. |
| LeaveTheorems.LeaveOwesExactly | crates/dotnet-exceptions/src/lib.rs:497-511 | What a `leave` owes, for all sections: a finally block of the top frame that it leaves, unless an earlier one of the section holds the target, or one that it stands in and that has an earlier one; never a fault block, never a block of another frame. |
| LeaveTheorems.LeaveOwesFinallyBlocksLeft | crates/dotnet-exceptions/src/lib.rs:497-511 | Where no finally block that shares its try block with another holds the `leave` or its target, that is exactly the finally blocks left. |
| LeaveTheorems.LoneFinallyIsLeftExactlyWhen | crates/dotnet-exceptions/src/lib.rs:497-511 | A finally block alone in its section is left if and only if its try block holds the `leave` and not its target. |
| LeaveTheorems.LeaveRunsFinallyBlocksLeft | crates/dotnet-exceptions/src/lib.rs:548-675 | In a whole `leave` the stops are exactly those finally blocks, several in one section included, each once and inner before outer, and it ends at its target. |
| LeaveTheorems.PopsCountCatchesDropped | crates/dotnet-exceptions/src/lib.rs:609-619 | The number of active exceptions dropped in a frame is the cardinality of the set of catch and filter handlers left before which no block of their section runs. |
| LeaveTheorems.CatchesAreDroppedExactlyWhen | crates/dotnet-exceptions/src/lib.rs:604-660 | It is the number of all catch and filter handlers left if and only if no block that runs comes before one of them in its section. |
| ExceptionWitnesses.ExceptionOfLateCatchStays | crates/dotnet-exceptions/src/lib.rs:604-660 | A `leave` from a catch behind a finally block of the same try block: the finally block runs, and the exception of the catch stays active. |
| LeaveTheorems.LeaveKeepsHandlerUnwind | crates/dotnet-vm/src/stack/exception_ops_impl.rs:137-158 | A `leave` during a handler gives back that handler's unwind if and only if the handler belongs to a frame below the top. |
| LeaveTheorems.LeaveInHandlerBreaksEndFinally | crates/dotnet-vm/src/stack/exception_ops_impl.rs:161-175 | After a `leave` in the handler's own frame with nothing set aside, `endfinally` is an error. |
| LeaveTheorems.CatchForgetsHandlerUnwind | crates/dotnet-vm/src/stack/exception_ops_impl.rs:120-123 | A caught exception leaves nothing in progress when the catch starts, whatever handler was running, and keeps what was set aside; `endfinally` inside the catch is an error. |
| LeaveTheorems.EndFinallyAfterCatchExactlyWhen | crates/dotnet-vm/src/stack/exception_ops_impl.rs:161-175 | After the catch has left for the rest of the handler, the unwind in progress is the handler's own if and only if that was the newest one set aside at the throw, and has its cursor in the top frame if and only if the newest one had; `endfinally` resumes it, and is an error if there was none. |
| WholeInstructions.LeftExactly | crates/dotnet-vm/src/stack/exception_ops_impl.rs:137-158 | A whole `leave` keeps the unwind of a running handler further down, and otherwise makes the newest unwind set aside the one in progress. |
| HandlerTheorems.EndFinallyResumesOwnExactlyWhen | crates/dotnet-vm/src/stack/exception_ops_impl.rs:137-175 | Over every run of a handler that starts with only unwinds of lower frames set aside: its `endfinally` resumes its own unwind, and one whose cursor is in the top frame, if and only if the handler executed no `leave` itself, no method it called returned from a guarded block, and no exception was caught. Otherwise it is an error, or resumes one of the unwinds set aside at the start. |
| ExceptionWitnesses.LeaveInsideFinally | crates/dotnet-vm/src/stack/exception_ops_impl.rs:137-158 | A `leave` from a try block inside a finally block makes `endfinally` an error. |
| ExceptionWitnesses.ThrowInsideFinally | crates/dotnet-vm/src/stack/exception_ops_impl.rs:120-123 | A throw in a try block inside a finally block, caught there with nothing set aside, makes `endfinally` an error. |
| ExceptionWitnesses.OwnUnwindIsResumed | crates/dotnet-vm/src/stack/exception_ops_impl.rs:137-175 | A method called by a finally block leaves a try block and throws from its own finally block; the exception is caught in the first finally block, whose `endfinally` then resumes its own unwind. |
| ExceptionWitnesses.EndFinallyMovesLowerFrame | crates/dotnet-exceptions/src/lib.rs:557-566 | A method called by a finally block leaves a try block, and its finally block throws and catches. Its `endfinally` resumes the unwind of the lower frame: that frame moves to the target of its `leave`, the upper frame stays where it was, and a second `endfinally` is an error. |
| ExceptionWitnesses.CatchIsEnteredBelowTop | crates/dotnet-exceptions/src/lib.rs:664-668 | The same towards a catch: the pass finishes the middle of three frames and pops the upper one, so that the catch is entered in the lowest frame with the middle one on top of it. |
| ReturnTheorems.ReturnOwesExactlyGuarded | crates/dotnet-exceptions/src/lib.rs:497-511 | An unwind that leaves the frame owes a handler if and only if a section holds the instruction, in its try block or in a handler, and has a finally block that does not. |
| ReturnTheorems.FastReturnSkipsNothingExactlyWhen | crates/dotnet-vm/src/stack/exception_ops_impl.rs:246-275 | Where the test of `ret` finds no finally or fault block, the unwind it skips owes no handler if and only if the `ret` is not in a handler beside a finally block of the same try block. |
| ExceptionWitnesses.FastReturnSkipsFinally | crates/dotnet-vm/src/stack/exception_ops_impl.rs:246-275 | A `ret` in a catch beside a finally block, whose finally block is skipped. |
| ReturnTheorems.ReturnUnwindEndsInReturn | crates/dotnet-exceptions/src/lib.rs:725-728 | A whole unwinding `ret` has run every finally owed and then returns, with the frames below and the unwinds set aside untouched. |
| ReturnTheorems.ReturnKeepsHandlerUnwind | crates/dotnet-vm/src/stack/exception_ops_impl.rs:232-275 | A method called from a handler returns into that handler's mode if and only if no try block with a finally or fault block holds the `ret`. |
| ExceptionWitnesses.ReturnUnderFault | crates/dotnet-vm/src/stack/exception_ops_impl.rs:260-272 | A method called from a finally block executes `ret` under a fault block, and the unwind of the finally block is gone. |
| SearchTheorems.ScanFindsFirst | crates/dotnet-exceptions/src/lib.rs:347-459 | From any cursor the nested loops find the first handler whose section holds the frame's instruction and that does not reject, and find none only if all reject. |
| SearchTheorems.FilterRoundTrip | crates/dotnet-exceptions/src/lib.rs:415-455 | Entering a filter, running it in an unchanged mode, and ending it restores every frame, the stack height and the suspended operands, and goes on after the filter or unwinds to it. |
| SearchTheorems.FilterIsFirst | crates/dotnet-exceptions/src/lib.rs:347-455 | A filter that runs is the first handler that can accept, and `endfilter` gives back the call stack of the search. |
| SearchTheorems.DeclineKeepsSearch | crates/dotnet-vm/src/stack/exception_ops_impl.rs:215-226 | After a filter that says no, everything before the cursor has declined and the frames are those at the beginning of the search. |
| SearchTheorems.SearchChoosesFirstAccepting | crates/dotnet-exceptions/src/lib.rs:324-489 | Over any number of filter stops, an unwind starts only towards the first accepting handler of the original call stack, and the exception is unhandled only if no handler accepts. |
| SearchTheorems.SearchChoosesAcceptingFilter | crates/dotnet-vm/src/stack/exception_ops_impl.rs:199-214 | A filter that says yes is the first accepting handler, and the unwind towards it starts from the original call stack. |
| SearchTheorems.ChosenIsUnique | crates/dotnet-exceptions/src/lib.rs:347-459 | At most one handler is the first accepting one. |
| ThrowTheorems.ThrowStartsSearch | crates/dotnet-exceptions/src/lib.rs:206-322 | A `throw` is a search that starts at the top of the call stack with nothing suspended. |
| ThrowTheorems.SearchStartsFreshUnwind | crates/dotnet-exceptions/src/lib.rs:393-409 | The unwind that a search starts is at its beginning, towards a live handler, and able to make progress. |
| ThrowTheorems.ThrowEndsInFirstAcceptingCatch | crates/dotnet-exceptions/src/lib.rs:324-737 | Both passes together: after any filters that declined and all stops of the unwind, control is in the first accepting handler of the call stack at the throw, every owed finally and fault block has run once and in order, and the stack above that frame's base holds the exception alone. |
| ThrowTheorems.ThrowEndsInFirstAcceptingFilter | crates/dotnet-vm/src/stack/exception_ops_impl.rs:178-229 | The same when the accepting handler is a filter. |
| ThrowTheorems.PreemptedThrowStartsOver | crates/dotnet-exceptions/src/lib.rs:664-674 | When a type initializer fails on the way, the handlers run so far are the first of those owed, and a search starts from the top of the frames that are left, all as they were at the throw, for the exception that wraps the old one for the method of the removed initializer. |
| FilterTheorems.LeaveEndsFiltering | crates/dotnet-vm/src/stack/exception_ops_impl.rs:137-158 | A whole `leave` does not give the filtering mode back. |
| FilterTheorems.ReturnKeepsFilteringExactlyWhen | crates/dotnet-vm/src/stack/exception_ops_impl.rs:246-275 | A `ret` keeps the filtering mode if and only if no try block with a finally or fault block holds it. |
| FilterTheorems.CatchEndsFiltering | crates/dotnet-vm/src/stack/exception_ops_impl.rs:120-123 | A caught exception does not give the filtering mode back. |
| FilterTheorems.EndFilterFailsExactlyWhen | crates/dotnet-vm/src/stack/exception_ops_impl.rs:178-197 | Over every run of a filter and the methods it calls, `endfilter` is an error if and only if one of these three happened; otherwise it is reached in the mode in which the filter started. |
| ExceptionWitnesses.LeaveInsideFilter | crates/dotnet-vm/src/stack/exception_ops_impl.rs:178-197 | A filter whose callee leaves a try block: `endfilter` is an error. |
| ExceptionWitnesses.ReturnInsideFilter | crates/dotnet-vm/src/stack/exception_ops_impl.rs:246-275 | A filter whose callee returns from a try block with a fault block: `endfilter` is an error. |
| ExceptionWitnesses.ThrowInsideFilter | crates/dotnet-vm/src/stack/exception_ops_impl.rs:120-123 | A filter whose callee throws and catches: `endfilter` is an error. |
| FilterTheorems.AbandonedFilterRestores | crates/dotnet-exceptions/src/lib.rs:515-546 | Abandoning a filter through a whole nested unwind resumes strictly after it; the frames are exactly restored if and only if the unwind dropped no exception of the frame or there was none, and the stack height if and only if, when the last pass began, the frame of the filter had no operand below the arguments of the frame above it. |
| FilterTheorems.StepKeepsNoNested | crates/dotnet-exceptions/src/lib.rs:300-321 | No instruction and no call of the engine introduces a nested filter. |
| FilterTheorems.NestedFilterNeverArises | crates/dotnet-exceptions/src/lib.rs:306-310 | Over every run of instructions from a state without one, no state carries a nested filter. |
| FilterTheorems.ThrowInFilterDiscardsSuspendedFrames | crates/dotnet-exceptions/src/lib.rs:300-321 | A throw while a filter runs discards the frames the filter had suspended. |
| Liveness.PassKeepsDistance | crates/dotnet-exceptions/src/lib.rs:569-675 | A pass from any live frame never refers to a frame that is gone, never goes below the target frame, and pops one frame off the top for every frame it finishes; frames outside those it visits are untouched. |
| Liveness.PassIsLive | crates/dotnet-exceptions/src/lib.rs:569-675 | From the top frame it pops exactly the frames above the one it stops in, and on arrival the target frame is on top. |
| Liveness.EndFinallyReachesItsFrameExactlyWhen | crates/dotnet-exceptions/src/lib.rs:557-675 | The frame in which a resumed unwind stops or arrives is the top frame if and only if the unwind had its cursor in the top frame; so a catch is reached with its frame on top if and only if that was so. Otherwise the frames above the cursor that are left are untouched. |
| Liveness.MisplacedEndFinallyStays | crates/dotnet-exceptions/src/lib.rs:684-735 | An `endfinally` that resumes a `leave` of a lower frame and lets it arrive moves that frame to its target and changes no other frame. |
| Liveness.HandleKeepsLive | crates/dotnet-exceptions/src/lib.rs:175-204 | Every call of the engine that sends no exception below a frame whose unwind is set aside keeps the invariant that the mode and the unwinds set aside refer only to live frames and valid handlers. |
| Liveness.EveryStateIsLiveExactlyWhen | crates/dotnet-exceptions/src/lib.rs:394-408 | In every run of a program that respects the placement rules, with any throws, returns and leaves while unwinds are set aside and whatever unwind each `endfinally` resumes, every state is live (a new unwind has its cursor in the top frame, and every unwind in progress or set aside has live frames and a valid target) if and only if no exception goes to a catch below a frame whose unwind is set aside and none escapes while one is set aside. |
| Liveness.ThrowInFilterIsLiveExactlyWhen | crates/dotnet-exceptions/src/lib.rs:300-321 | An exception thrown in a filter starts a live search if no frame that the filter has suspended has its unwind set aside, and, thrown by the frame of the filter itself, only then. |
| Liveness.NothingIsSetAsideWhenIdle | crates/dotnet-exceptions/src/lib.rs:684-695 | Where nothing is thrown or returned from while an unwind is set aside, every state is live and an idle state has nothing set aside. |
| Liveness.CatchKeepsPending | crates/dotnet-exceptions/src/lib.rs:684-695 | A caught exception keeps the unwinds set aside; the newest refers to a live frame if and only if its frame is not above the catching one. |
| Liveness.LeaveAfterCatchResumesStaleUnwind | crates/dotnet-exceptions/src/lib.rs:684-695 | A `leave` with nothing in progress makes the newest unwind set aside current; it is live if and only if its frame exists. |
| ExceptionWitnesses.StaleUnwindAborts | crates/dotnet-exceptions/src/lib.rs:684-695 | A throw past a frame whose unwind is set aside. The catch leaves through a finally block that throws and catches an exception of its own; the `leave` of that inner catch makes the stale unwind current, and the `endfinally` of the finally block aborts. |
| ExceptionSemantics.Handle | crates/dotnet-exceptions/src/lib.rs:175-204 | The mutually recursive phases terminate and never return Continue. |
| ExceptionMachine.Machine.HandleException | crates/dotnet-exceptions/src/lib.rs:175-204 | The dispatch on the mode refines the reference semantics. |
| ExceptionMachine.Machine.BeginThrowing | crates/dotnet-exceptions/src/lib.rs:206-322 | Starting a search refines the reference semantics: suspended stacks are cleared, the cursor is at the top frame. |
| ExceptionMachine.Machine.SearchForHandler | crates/dotnet-exceptions/src/lib.rs:324-489 | The search phase refines the reference semantics in all its outcomes, errors and aborts included. |
| ExceptionMachine.Machine.Scan | crates/dotnet-exceptions/src/lib.rs:347-459 | The three nested loops with a cursor compute the recursive scan. |
| ExceptionMachine.Machine.EnterFilter | crates/dotnet-exceptions/src/lib.rs:415-455 | Entering a filter suspends the frames above and the operands from the frame's base, and starts the clause. |
| ExceptionMachine.Machine.IsExitingSection | crates/dotnet-exceptions/src/lib.rs:491-513 | The loop decides whether control that moves to the target leaves the section. |
| ExceptionMachine.Machine.SweepFrame | crates/dotnet-exceptions/src/lib.rs:581-662 | The section loop computes the sweep of one frame and pops exactly its active exceptions in place. |
| ExceptionMachine.Machine.SweepSection | crates/dotnet-exceptions/src/lib.rs:594-661 | The handler loop computes the sweep of one section. |
| ExceptionMachine.Machine.Advance | crates/dotnet-exceptions/src/lib.rs:557-675 | One unwind pass from the saved cursor computes the recursive pass. |
| ExceptionMachine.Machine.AdvanceFrames | crates/dotnet-exceptions/src/lib.rs:568-675 | The frame loop ends as the recursive pass does. |
| ExceptionMachine.Machine.AdvanceFrame | crates/dotnet-exceptions/src/lib.rs:570-674 | One frame either ends the pass or leaves exactly the part of it below that frame. |
| ExceptionMachine.Machine.Unwind | crates/dotnet-exceptions/src/lib.rs:548-737 | The unwind phase refines the reference semantics. |
| ExceptionMachine.Machine.Arrive | crates/dotnet-exceptions/src/lib.rs:677-736 | Arriving at a handler or an instruction refines the reference semantics. |
| ExceptionMachine.Machine.EnterCatch | crates/dotnet-exceptions/src/lib.rs:698-724 | Entering a catch, with its failing index and missing-exception cases, refines the reference semantics. |
| ExceptionMachine.Machine.CompleteNestedFilter | crates/dotnet-exceptions/src/lib.rs:515-546 | Abandoning a filter refines the reference semantics. |
| ExceptionMachine.Machine.UnwindFrame | crates/dotnet-vm/src/stack/context.rs:454-495 | Popping a frame truncates the stack to its arguments and, for a type initializer, replaces the active exception. |
| ExceptionMachine.Machine.Throw | crates/dotnet-vm/src/stack/exception_ops_impl.rs:120-123 | `throw` refines the reference semantics. |
| ExceptionMachine.Machine.Rethrow | crates/dotnet-vm/src/stack/exception_ops_impl.rs:126-134 | `rethrow` throws the newest active exception of the top frame, or is an error. |
| ExceptionMachine.Machine.Leave | crates/dotnet-vm/src/stack/exception_ops_impl.rs:137-158 | `leave` refines the reference semantics. |
| ExceptionMachine.Machine.Ret | crates/dotnet-vm/src/stack/exception_ops_impl.rs:232-275 | `ret` refines the reference semantics. |
| ExceptionMachine.Machine.HasFinallyBlocks | crates/dotnet-vm/src/stack/exception_ops_impl.rs:246-258 | The loop decides whether a try block with a finally or fault block holds the instruction. |
| ExceptionMachine.Machine.EndFinally | crates/dotnet-vm/src/stack/exception_ops_impl.rs:161-175 | `endfinally` resumes the unwind of the running handler, or is an error. |
| ExceptionMachine.Machine.EndFilter | crates/dotnet-vm/src/stack/exception_ops_impl.rs:178-229 | `endfilter` refines the reference semantics. |
| DelegateHeap.CreateMakesLeaf | crates/dotnet-intrinsics-reflection/src/methods.rs:572-624 | A created delegate, with or without the vector of itself, is its own invocation list and has the given target and method. |
| DelegateHeap.CombineConcatenates | crates/dotnet-intrinsics-delegates/src/operations.rs:221-248 | The list of Combine(a, b) is the list of a followed by the list of b, null operands included; no existing delegate changes. |
| DelegateHeap.CombineIsAssociative | crates/dotnet-intrinsics-delegates/src/operations.rs:221-248 | Combining in either grouping gives equal lists. |
| DelegateHeap.RemoveDeletesLastOccurrence | crates/dotnet-intrinsics-delegates/src/operations.rs:251-311 | Remove deletes exactly the last contiguous occurrence, or returns the source if there is none, with null and single-entry results denoting the right list. |
| DelegateHeap.RemoveUndoesCombine | crates/dotnet-intrinsics-delegates/src/operations.rs:221-311 | The list of Remove(Combine(a, b), b) is the list of a, for all a and b. |
| DelegateHeap.ReachableHeapsAreSound | crates/dotnet-intrinsics-delegates/src/operations.rs:46-66 | In every heap reached by creating, combining and removing, list entries are leaves, and the list of a delegate never changes afterwards. |
| DelegateHeap.EqualIsEquivalence | crates/dotnet-intrinsics-delegates/src/operations.rs:106-187 | Equals is reflexive, symmetric and transitive on delegates. |
| DelegateHeap.EqualDelegatesHashAlike | crates/dotnet-intrinsics-delegates/src/operations.rs:191-216 | Equal delegates have equal hash codes. |
| DelegateHeap.EqualMeansSameLists | crates/dotnet-intrinsics-delegates/src/operations.rs:106-187 | For delegates that have the identity of their first entry, Equals holds if and only if the lists agree entry by entry. |
| DelegateHeap.CombineKeepsHeadIdentity | crates/dotnet-intrinsics-delegates/src/operations.rs:46-66 | Combine gives delegates the identity of their first entry. |
| DelegateHeap.RemoveKeepsHeadIdentityExactly | crates/dotnet-intrinsics-delegates/src/operations.rs:251-311 | Remove keeps that property if and only if the entry that becomes first has the identity of the source. |
| DelegateHeap.RemovingTheHeadBreaksEquals | crates/dotnet-intrinsics-delegates/src/operations.rs:251-311 | Otherwise the result differs under Equals from every delegate with the same list and the identity of its first entry. |
| DelegateHeap.UniformRunsEqualByLists | crates/dotnet-intrinsics-delegates/src/operations.rs:106-187 | Over every run from the empty heap of creations in one representation, combinations, and removals that keep the identity of the first entry, two delegates are equal if and only if their lists agree entry by entry. |
| DelegateHeap.RemovedHeadDiffers | crates/dotnet-intrinsics-delegates/src/operations.rs:251-311 | Removing the first of three entries gives a delegate that does not equal the combination of the other two. |
| DelegateMachine.Machine.GetInvocationList | crates/dotnet-intrinsics-delegates/src/helpers.rs:184-205 | The loop over the vector yields the invocation list. |
| DelegateMachine.Machine.PushDelegateWithInvocationList | crates/dotnet-intrinsics-delegates/src/operations.rs:46-66 | Allocates a copy of the source with a new vector; nothing else on the heap changes. |
| DelegateMachine.Machine.Combine | crates/dotnet-intrinsics-delegates/src/operations.rs:221-248 | The intrinsic pops two operands and pushes a Combine result, keeping the heap invariant. |
| DelegateMachine.Machine.DelegatesEqual | crates/dotnet-intrinsics-delegates/src/helpers.rs:300-316 | Decides whether two entries match. |
| DelegateMachine.Machine.FindLast | crates/dotnet-intrinsics-delegates/src/operations.rs:276-292 | The reverse search finds the last occurrence, and none only if there is none. |
| DelegateMachine.Machine.Remove | crates/dotnet-intrinsics-delegates/src/operations.rs:251-311 | The intrinsic pops two operands and pushes a Remove result, keeping the heap invariant. |
| DelegateMachine.Machine.PushRemaining | crates/dotnet-intrinsics-delegates/src/operations.rs:294-308 | Pushes null, the one remaining entry, or a new delegate, according to what is left. |
| DelegateMachine.Machine.Equals | crates/dotnet-intrinsics-delegates/src/operations.rs:106-187 | The intrinsic pushes 1 if and only if the operands are equal; a null receiver throws. |
| DelegateMachine.Machine.EqualDelegates | crates/dotnet-intrinsics-delegates/src/operations.rs:144-184 | The comparison loop decides equality of two different delegates. |
| DelegateMachine.Machine.GetHashCode | crates/dotnet-intrinsics-delegates/src/operations.rs:191-216 | The intrinsic pushes the hash code; a null receiver throws. |
| AssemblyMetadata.SplitThenJoin | crates/dotnet-assemblies/src/resolution.rs:69-99 | Splitting a full name and joining it again is the identity if and only if the last dot is not its first character. |
| AssemblyMetadata.RejoinedSplitsAlike | crates/dotnet-assemblies/src/resolution.rs:63-79 | A forwarded name asks for the same namespace and name, however often it is forwarded. |
| AssemblyMetadata.FindDefinition | crates/dotnet-assemblies/src/resolution.rs:81-90 | Finds the first definition of the name, and none only if there is none. |
| AssemblyMetadata.NetIsRegular | crates/dotnet-assemblies/src/resolution.rs:340-366 | Forwarded names are answered as the name itself, and a nested type is found in one owner only. |
| LookupTermination.AcyclicLookupsTerminate | crates/dotnet-assemblies/src/resolution.rs:124-165 | If no chain of forwarders from the reference, over all assemblies that names may come to stand for, visits a reference twice, the lookup terminates, whatever is loaded and in whatever order. |
| LookupTermination.LoadedLookupTerminatesExactlyWhen | crates/dotnet-assemblies/src/resolution.rs:124-165 | When all files have been loaded, it terminates if and only if that is so. |
| LookupTermination.AcyclicRefsTerminate | crates/dotnet-assemblies/src/resolution.rs:309-378 | The lookup of a type reference terminates, if no chain of its owners visits a reference twice and no chain of forwarders from the scope of the outermost owner does. |
| LookupTermination.LoadedRefTerminatesExactlyWhen | crates/dotnet-assemblies/src/resolution.rs:309-378 | When all files have been loaded, it terminates if and only if that is so. |
| TypeResolution.FindEndsAtDefinition | crates/dotnet-assemblies/src/resolution.rs:124-165 | What is found is a stub, or a definition of that namespace and name in a loaded assembly. |
| TypeResolution.FindDependsOnNames | crates/dotnet-assemblies/src/resolution.rs:124-165 | A lookup through loaded assemblies changes nothing, and any registry with the same assemblies under the names it passes through gives the same result. |
| TypeResolution.LookupSettles | crates/dotnet-assemblies/src/loader.rs:396-445 | A lookup that loads assemblies, and gives no loaded name another assembly, gives the same type again, through loaded assemblies only. |
| TypeResolution.TidyLookupsKeep | crates/dotnet-assemblies/src/loader.rs:435-441 | Where files declare the names they are found under, no lookup gives a loaded name another assembly. |
| TypeResolution.RefFollowsRoot | crates/dotnet-assemblies/src/resolution.rs:340-377 | The lookup of a nested reference is the lookup of its outermost owner, and then the way down. |
| TypeResolution.DownIsInjective | crates/dotnet-assemblies/src/resolution.rs:345-364 | Different outermost owners never lead down to the same type. |
| TypeCaches.OverwrittenLookupExactly | crates/dotnet-assemblies/src/loader.rs:536-542 | After an assembly is registered under a name, a lookup that does not pass through the name is unchanged; one that does still finds its type if and only if the new assembly binds to the reference of the first visit and answers with the type there. |
| TypeCaches.ForwardingAssemblyExactly | crates/dotnet-assemblies/src/resolution.rs:63-65 | If the new assembly forwards the name, it answers with the type if and only if it binds and, in the old registry, the place it forwards to finds the type without passing through the overwritten name. |
| TypeCaches.EntryAfterRegistrationExactly | crates/dotnet-assemblies/src/resolution.rs:291-306 | A cached type, nested ones included, stays what an uncached lookup gives if its lookup did not pass through the overwritten name, and otherwise if and only if the new assembly answers with its outermost owner. |
| TypeCaches.CachedTypesStayCurrent | crates/dotnet-assemblies/src/resolution.rs:286-307 | Over every run of lookups, registrations and probing paths in which no loaded name gets another assembly, every cached type is what an uncached lookup gives now, and no cached type ever changes. |
| TypeCaches.StaleEntry | crates/dotnet-assemblies/src/resolution.rs:291-295 | A loader whose cache keeps the type of an assembly that another one has replaced. |
| CorlibResolution.SearchDependsOnDeps | crates/dotnet-assemblies/src/resolution.rs:207-249 | A search through loaded core libraries gives the same answer in every registry that has the same assemblies where the search looked and still lacks the libraries it found absent. |
| CorlibResolution.CorlibAnswerIsKept | crates/dotnet-assemblies/src/resolution.rs:207-249 | So a core-library type stays the uncached answer as long as those dependencies are respected. |
| CorlibRegistrations.CorlibAfterRegistrationExactly | crates/dotnet-assemblies/src/resolution.rs:207-249 | After an assembly is registered under any name, the answer of a search through loaded assemblies is unchanged if the search did not depend on the name. Otherwise a type is the answer if and only if the first core library that the name concerns, by its own name or on the way of its forwarder, now contributes it, or is now silent and the later libraries answer with it; a library that forwards contributes it if and only if the new assembly answers with it where the forwarder first visits its name. |
| CorlibRegistrations.ContributesExactlyWhen | crates/dotnet-assemblies/src/resolution.rs:251-284 | An assembly contributes a type if and only if it defines it, or displays it as a nested type, or forwards the name to where it is found. |
| CorlibRegistrations.LateRegistrationExactly | crates/dotnet-assemblies/src/resolution.rs:213-239 | Registering a core library that was absent keeps an answer found beyond it if and only if the library answers with the same type, or is silent and the later libraries still find the type with what it has loaded; they do if that respects what they depend on. |
| CorlibRegistrations.ForwardedAnswerChanges | crates/dotnet-assemblies/src/resolution.rs:213-239 | A type found through the forwarder of mscorlib changes when another System.Private.CoreLib is registered. |
| CorlibResolution.CellKeepsFirstSuccess | crates/dotnet-assemblies/src/resolution.rs:180-193 | In every run, whatever is registered meanwhile, a set cell was set by one step to the uncached answer of that moment, and has never changed since. |
| CorlibResolution.OutdatedCell | crates/dotnet-assemblies/src/resolution.rs:180-193 | A cell set from System.Private.CoreLib that mscorlib, registered later, would answer differently. |
| TypeLoader.Loader.constructor | crates/dotnet-assemblies/src/loader.rs:162-265 | A new loader has the files of its root directory pending, the support library loaded, and empty caches. |
| TypeLoader.Loader.LoadAndRegister | crates/dotnet-assemblies/src/loader.rs:396-445 | Loading takes the probing path or the file in the root directory, fails for a missing or unreadable file and for one without a manifest, and otherwise registers the declared and the requested name. |
| TypeLoader.Loader.GetAssembly | crates/dotnet-assemblies/src/loader.rs:447-473 | A loaded name answers; any other is loaded. |
| TypeLoader.Loader.GetAssemblyWithVersion | crates/dotnet-assemblies/src/loader.rs:451-522 | Redirects, loading on demand and the strict version test compute the assembly of a reference. |
| TypeLoader.Loader.FirstRedirect | crates/dotnet-assemblies/src/loader.rs:458-466 | The loop applies the first matching redirect. |
| TypeLoader.Loader.FindInAssembly | crates/dotnet-assemblies/src/resolution.rs:124-165 | The lookup through a reference, following forwarders, computes the uncached lookup whenever that has a result. |
| TypeLoader.Loader.LocateTypeRef | crates/dotnet-assemblies/src/resolution.rs:309-378 | So does the lookup of a reference, nested ones included. |
| TypeLoader.Loader.LocateType | crates/dotnet-assemblies/src/resolution.rs:286-307 | A hit answers from the cache; a miss is the uncached lookup, of which a type is cached and a failure is not; hits and misses are counted. |
| TypeLoader.Loader.TryFindInAssembly | crates/dotnet-assemblies/src/resolution.rs:251-284 | What an assembly contributes: its definition, the type its forwarder leads to, or a nested type by its display name. |
| TypeLoader.Loader.TryCore | crates/dotnet-assemblies/src/resolution.rs:213-239 | One core library either ends the search or leaves exactly the search over the later ones. |
| TypeLoader.Loader.CorlibTypeInternal | crates/dotnet-assemblies/src/resolution.rs:207-249 | Stubs, the registered core libraries in order, and the fallback to mscorlib compute the search. |
| TypeLoader.Loader.ResolveSpellings | crates/dotnet-assemblies/src/resolution.rs:195-205 | The spellings of a well-known type are tried until one resolves. |
| TypeLoader.Loader.CorlibWellKnown | crates/dotnet-assemblies/src/resolution.rs:180-193 | Reading a cell is one cell step: a set cell answers, an open one is resolved, and set only if that succeeds. |
| TypeLoader.Loader.CorlibType | crates/dotnet-assemblies/src/resolution.rs:168-177 | A core-library type named at run time is cached by name, failures are not. |
| StringProbes.MaskFindsFirstLane | crates/dotnet-intrinsics-string/src/simd.rs:98-121 | Trailing zeros of the byte mask, halved, are the first matching lane; the mask is zero if and only if no lane matches. |
| StringProbes.MaskSeesAllLanes | crates/dotnet-intrinsics-string/src/simd.rs:124-160 | The mask is full if and only if every lane is set. |
| StringProbes.IndexOfSse2 | crates/dotnet-intrinsics-string/src/simd.rs:98-121 | The x86 probe returns the first index of the character, or none if it does not occur. |
| StringProbes.IndexOfNeon | crates/dotnet-intrinsics-string/src/simd.rs:186-212 | So does the ARM probe. |
| StringProbes.FirstIsUnique | crates/dotnet-intrinsics-string/src/simd.rs:98-212 | The first index is unique, so that the two probes agree. |
| StringProbes.IndexOf | crates/dotnet-intrinsics-string/src/search.rs:21-54 | Probe or scalar loop: the first index at or after the start, or -1 if there is none or the start is negative. |
| StringProbes.AllAsciiWhitespaceSse2 | crates/dotnet-intrinsics-string/src/simd.rs:124-160 | A decided answer is the Unicode whitespace test of every unit; undecided only if a unit is not ASCII. |
| StringProbes.AllAsciiWhitespaceNeon | crates/dotnet-intrinsics-string/src/simd.rs:215-248 | The same for the ARM probe. |
| StringProbes.ScalarAsciiWhitespace | crates/dotnet-intrinsics-string/src/simd.rs:162-175 | The scalar tail decides likewise. |
| StringProbes.IsWhiteSpace | crates/dotnet-intrinsics-string/src/search.rs:303-342 | Probe or scalar fallback chunk by chunk equals the test of the whole string. |
| Spans.AsSpanIsWindow | crates/dotnet-intrinsics-span/src/conversions.rs:208-237 | AsSpan succeeds exactly if the requested window exists, and then is that window. |
| Spans.SliceIsWindow | crates/dotnet-intrinsics-span/src/conversions.rs:742-764 | Slice succeeds exactly if the shifted window fits, and then is that window. |
| Spans.SliceOfSlice | crates/dotnet-intrinsics-span/src/conversions.rs:742-764 | A slice of a slice is one slice with the starts added. |
| Spans.SlicesStayInside | crates/dotnet-intrinsics-span/src/conversions.rs:742-764 | Any chain of slices denotes a window of the original source inside the first span, at the sum of the starts. |
| Spans.WithSpanData | crates/dotnet-intrinsics-span/src/helpers.rs:191-268 | Access yields exactly the bytes of the window or a bounds error, for every 32-bit length, without overflow. |
| Spans.CopyTo | crates/dotnet-intrinsics-span/src/conversions.rs:895-973 | For any overlap of source and destination, the destination window holds the old source elements and every other byte is unchanged; negative and too short lengths are errors. |
| Spans.ReadAll | crates/dotnet-intrinsics-span/src/conversions.rs:930-953 | Reads all elements of the window, or fails if it does not fit. |
| Spans.WriteAll | crates/dotnet-intrinsics-span/src/conversions.rs:955-970 | Writes all elements to the window and changes nothing else. |
| SupportSlots.Parse | crates/dotnet-build-tools/src/support_slots.rs:117-234 | Parsing succeeds exactly if every row could be read, its accessor, signature, storage and views fit together, no id, name, field or accessor is repeated, and the ids leave no gap from 1; the result is the permutation of the rows with slot i at place i - 1. |
| SupportSlots.CheckViews | crates/dotnet-build-tools/src/support_slots.rs:422-470 | The view loop accepts at most one alternate and one layout view, an alternate only as the word-sized view of a handle. |
| SupportSlots.AccessAgreesWithStorage | crates/dotnet-build-tools/src/support_slots.rs:369-420 | In an accepted slot an alternate view differs in type from the primary accessor, which is then an object reference. |
| SupportSlots.CheckRows | crates/dotnet-build-tools/src/support_slots.rs:125-211 | The row loop with its sets accepts exactly the rows that are fine alone and clash with no other. |
| SupportSlots.CheckAccessors | crates/dotnet-build-tools/src/support_slots.rs:328-368 | Accessor names are accepted exactly if none is repeated in the row or seen before. |
| SupportSlots.SortById | crates/dotnet-build-tools/src/support_slots.rs:232-232 | The sorted table is a permutation. |
| SupportSlots.AcceptanceIgnoresRowOrder | crates/dotnet-build-tools/src/support_slots.rs:117-234 | Whether a definition is accepted does not depend on the order of its rows. |
| SupportSlots.TableIgnoresRowOrder | crates/dotnet-build-tools/src/support_slots.rs:117-234 | Neither does the table. |
| SupportSlots.LookupById | crates/dotnet-assemblies/build.rs:191-203 | Lookup at id - 1 finds exactly the slots of the definition. |
| SupportSlots.ValidateContract | crates/dotnet-assemblies/src/support.rs:384-566 | Validation succeeds exactly if every annotation names a slot and sits on the field the slot describes, no slot is named twice, none is missing, every annotated field is marked as used, and every declaring type resolves; it then registers each slot's declaring type. |
| SupportSlots.ScanField | crates/dotnet-assemblies/src/support.rs:403-518 | The attribute loop of one field accepts exactly the annotations that keep the scan sound, and marks their slots. |
| SupportSlots.ContractIsBijective | crates/dotnet-assemblies/src/support_contract.rs:33-57 | In a valid assembly there are as many annotations as slots, each slot has its field, and no field serves two slots. |
| SupportSlots.FieldHasItsSlot | crates/dotnet-assemblies/src/support_contract.rs:49-57 | Where different declaring names resolve to different types, looking up a field of the contract gives its own slot id. |
| RollForward.Select | crates/dotnet-assemblies/src/host.rs:352-413 | Every policy selects the winning entry of the version it asks for, or nothing if no installed version is asked for. |
| RollForward.Find | crates/dotnet-assemblies/src/host.rs:361-363 | An exact match takes the first entry of the version. |
| RollForward.LastHighest | crates/dotnet-assemblies/src/host.rs:310-314 | The last entry of the highest patch among those of one minor. |
| RollForward.ExtremeMinor | crates/dotnet-assemblies/src/host.rs:321-345 | The lowest or latest minor of a major that is not below the minimum. |
| RollForward.ExtremeMajor | crates/dotnet-assemblies/src/host.rs:380-400 | The lowest or latest major that is not below the requested one. |
| RollForward.TargetIsUnique | crates/dotnet-assemblies/src/host.rs:352-413 | A policy asks for at most one version. |
| RollForward.VersionIgnoresOrder | crates/dotnet-assemblies/src/host.rs:352-413 | Listings in different orders give the same version, or nothing on both sides. |
| RollForward.PathIgnoresOrderExactlyWhen | crates/dotnet-assemblies/src/host.rs:286-314 | The selected directory does not depend on the order of the listing if and only if no other entry has the selected version. |
| RollForward.LastListedWins | crates/dotnet-assemblies/src/host.rs:269-314 | Two directories of one version: the one listed last is selected, in either order. |
| RollForward.NeverBelowRequestedMinor | crates/dotnet-assemblies/src/host.rs:352-413 | No policy selects something not installed, a lower major, or a lower minor of the requested major. |
| RollForward.SelectionIsRecentExactlyWhen | crates/dotnet-assemblies/src/host.rs:352-413 | What a policy selects is at least the requested version if and only if it is the exact match, or not only older patches of the requested minor are installed, or the policy prefers a later minor or major that is. |
| RollForward.OlderPatchIsSelected | crates/dotnet-assemblies/src/host.rs:310-413 | A request for 8.0.5 that selects 8.0.1, under every policy but the exact match. |
| RollForward.LatestPatchRefinesMinor | crates/dotnet-assemblies/src/host.rs:316-332 | What LatestPatch selects, Minor selects. |
| RollForward.MinorRefinesMajor | crates/dotnet-assemblies/src/host.rs:380-394 | What Minor selects, Major selects. |
| RollForward.LatestPoliciesAreLater | crates/dotnet-assemblies/src/host.rs:334-350 | Minor, LatestMinor and LatestMajor select ever later versions. |
| RollForward.MajorSelectsExactlyWhen | crates/dotnet-assemblies/src/host.rs:380-394 | Major selects if and only if something at or above the requested major is installed and, if the requested major is, one of its minors is high enough. |
| RollForward.UsableMajorIsMissed | crates/dotnet-assemblies/src/host.rs:380-394 | Versions 8.0 and 9.0 are installed and 8.1 is requested: Major selects nothing. |

## Left out

- Whole-run theorems about exceptions assume what the engine relies on: sections are well nested (ECMA-335 Partition I section 12.4.2.7) with handlers after their try block, and frames lie one above the other on the stack. The engine itself, its refinement and single passes have no such assumption about sections.
- UnwindRuns.ResumeShape: a handler whose `endfinally` does not resume its own unwind ends the run; `EndFinallyResumesOwnExactlyWhen` says when that happens, and `EndFinallyReachesItsFrameExactlyWhen` what the resumed unwind then does.
- HandlerTheorems.EndFinallyResumesOwnExactlyWhen: instructions inside the handler are whole, so that an exception thrown out of a `leave` that is still running is not among them; `EndFinallyAfterCatchExactlyWhen` has no such restriction.
- Liveness.EveryStateIsLiveExactlyWhen: in a filter that has suspended a frame whose unwind is set aside, exception instructions are not among the steps; `ThrowInFilterIsLiveExactlyWhen` and `LeaveEndsFiltering` say what they do there.
- SupportSlots.Parse: rows are given as records; splitting lines into columns and reading each column is one flag per row.
- SupportSlots.ValidateContract: reading attribute blobs and decoding field signatures is not modelled; signatures are values.
- TypeLoader.Loader.LoadAndRegister: a registered file that has disappeared fails like a missing one; the source reports a different message.
- Exception messages, stack traces and the managed-exception conversion.
- Heap allocation of the exception that wraps a failed type initializer, the marking of the type as failed, and finalizer flags: a parameter, or left out.
- The scratch fields that record the filter frame's instruction and height a second time; the filter state holds both.
- Continuations other than handler unwinds, which `push_handler_unwind` would overwrite.
- Method and field resolution, generics, concurrent access to the loader caches.
- `Substring` chunk copies and the sequence-equality probe.
- Spans over static data and raw pointers; garbage collector write barriers.
- Stub discovery and stub schema checks of the support library.
- Parsing of version strings and directory listings of the framework resolver.
