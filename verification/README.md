# BrewTools: Trace sink and system ids

A Dafny model of two sequential pieces of the BrewTools engine library.

- **The Trace sink** (`BrewTools::Trace`). It is a levelled log writer. `trace[level]` sets the level. `trace << text` writes the entry `[<level>] <text>` to the open log file, if there is one. It also writes the entry to standard output when a console is selected and printing is on. The Trace opens and closes its log file and selects the console it prints to. When it selects a console it clears the `selected` flag of the console it used before and sets the flag of the new one.
- **System ids** (`System<T>::id`). Each system type gets its id from one shared, zero-initialised `unsigned` counter, through `++ProtoSystem::GetSysIDCount()`.

Modules:

- `Types` (`types.dfy`): the 32-bit `unsigned` as a newtype, and `Option` standing in for a nullable pointer.
- `Decimal` (`decimal.dfy`): how `std::ostream << unsigned` renders the level as text, plus a parser for the reverse direction.
- `TraceSink` (`trace.dfy`): the Trace state and its operations, as pure functions from the old state to the new one. The file stream and `std::cout` become two logs. Each log is a sequence of entries, one per `<<` call. The Console objects' `selected` flags become a map from console identity to flag.
- `SystemIds` (`system.dfy`): the shared counter, the pre-increment with explicit 32-bit wrap-around, and the allocation of ids to system types in the order their static members are initialised. The C++ runtime does not fix that order across translation units, so the model takes it as an input.

Inputs that stand in for the environment:

- Whether `std::ofstream` manages to open a path is the `canOpen` parameter of `OpenFile` and `NewTraceWithPath`.
- The static-initialisation order is the `order` parameter of `Allocate` and `GetId`. How far that initialisation has got when `GetID()` is called is the `done` parameter of `GetId`.

Where the code and its comments disagree, the model follows the code:

- The comment on `OpenFile` (source/trace.cpp:78-79) says the old file stays open when the new one cannot be opened. The code calls `CloseFile()` first, so after a failed `OpenFile` no file is open at all. `TraceSink.OpenFile` states this.
- The comment on `OpenFile` (source/trace.cpp:84-85) says it returns "true if the path was changed, false otherwise". When a file was open and the new one cannot be opened, `CloseFile()` (source/trace.cpp:90, 171) clears the path, yet the function returns false (source/trace.cpp:101). `TraceSink.OpenFile` follows the code.
- `include/brewtools/trace.h` declares no `m_printing` member, but `source/trace.cpp` uses one. The model includes it.

Two invariants:

- `TraceSink.Valid`: when no file is open, the path is empty; printing is on exactly when a console is selected. Both constructors establish it, and every operation's contract states that it preserves it.
- `TraceSink.OwnsSelection`: no console is flagged selected other than the one this Trace writes to. A new Trace has it when no console is flagged yet (`TraceSink.NewTraceOwnsSelection`, `TraceSink.NewTraceWithPathOwnsSelection`). `SelectConsole` is the only operation that touches console flags, and its contract states that it preserves the invariant. This holds only while this Trace is the only one selecting consoles.

## Model

| member | source | states |
|---|---|---|
| `Decimal.Render` | source/trace.cpp:133 | the level is printed as at least one decimal digit, with no leading zero unless the level is 0, and never contains `]` |
| `TraceSink.FormatLine` | source/trace.cpp:138 | an entry is exactly `[`, the level's digits, `] `, and the unmodified message, in that order |
| `Decimal.ParseRender` | source/trace.cpp:133 | the level is printed in decimal without padding, so reading the digits back gives the level |
| `Decimal.RenderInjective` | source/trace.cpp:138 | different levels are printed as different digit strings |
| `TraceSink.FormatLineParses` | source/trace.cpp:138 | a log entry `[<level>] <text>` can be read back to exactly that level and that text |
| `TraceSink.ParseLineExact` | source/trace.cpp:133 | a log entry parses to (level, text) if and only if it is the entry the sink writes for that level and text |
| `TraceSink.FormatLineInjective` | source/trace.cpp:138 | two writes give the same log entry only when their levels and texts are the same |
| `TraceSink.NewTrace` | source/trace.cpp:42-46 | the default constructor starts with level 0, no console, printing off, no file open, an empty path and empty logs |
| `TraceSink.NewTraceWithPath` | source/trace.cpp:57-61 | the path constructor starts like the default one and then opens the path; a file is open iff the stream opened, and the path is recorded only then |
| `TraceSink.Destroy` | source/trace.cpp:69-72 | the destructor leaves no file open and changes nothing else; a valid Trace is left with an empty path |
| `TraceSink.CloseFile` | source/trace.cpp:166-173 | closing an open file leaves it closed with an empty path; with no file open the Trace is unchanged; level, console and logs are never touched |
| `TraceSink.OpenFile` | source/trace.cpp:88-103 | the current file is always closed first; the result is true iff the stream opened; on success a fresh, empty file with path `p` is open; on failure no file is open and the path is empty; console, level and standard output are unchanged |
| `TraceSink.IsFileOpen` | source/trace.cpp:106-117 | true exactly when a write would append an entry to the file log, i.e. a file is being traced to; when false, a valid Trace's path is empty |
| `TraceSink.IsFileOpenMeansTraced` | source/trace.cpp:106-117 | a file is open exactly when `<<` appends its entry `[<level>] <text>` to the file log |
| `TraceSink.SetLevel` | source/trace.cpp:154-158 | `operator[]` sets the level to exactly the argument and leaves every other part of the Trace as it was |
| `TraceSink.Write` | source/trace.cpp:128-141 | `operator<<` appends one entry to the file log iff a file is open, and one entry to the stdout log iff a console is selected and printing is on; each appended entry reads back as (current level, text); earlier entries and the level stay as they were |
| `TraceSink.LevelledWrite` | source/trace.cpp:128-158 | `trace[l] << s` on an open file appends exactly `[l] s` to the file log |
| `TraceSink.SilentWrite` | source/trace.cpp:130-139 | with no file open and no console selected, a write changes nothing |
| `TraceSink.Update` | source/trace.cpp:181-184 | `Update` leaves the Trace unchanged |
| `TraceSink.SelectConsole` | source/trace.cpp:193-214 | the new console becomes the Trace's console and its flag is set; the old console's flag is cleared unless it is reselected; no other console's flag changes; afterwards printing is on iff the new console is non-null; `Valid` and `OwnsSelection` are preserved |
| `TraceSink.NewTraceOwnsSelection` | source/trace.cpp:42-43 | a default-constructed Trace has no console, so while no console is flagged it owns the selection |
| `TraceSink.NewTraceWithPathOwnsSelection` | source/trace.cpp:57-58 | the same holds for a Trace constructed with a path |
| `TraceSink.ReselectKeepsSelected` | source/trace.cpp:195-199 | selecting the console already selected leaves its flag set and printing on |
| `TraceSink.AtMostOneSelected` | source/trace.cpp:195-199 | while `OwnsSelection` holds, at most one console is flagged selected, and it is the Trace's own |
| `SystemIds.InitialCounter` | source/system.cpp:25 | the shared counter is zero before any id is handed out |
| `SystemIds.GetSysIdCount` | source/system.cpp:49-52 | `GetSysIDCount` returns the one shared counter without changing it |
| `SystemIds.WrapIsModulo` | include/brewtools/system.h:27 | `SysID` is a 32-bit `unsigned`, so the counter's value is taken modulo 2^32 |
| `SystemIds.PreIncrement` | include/brewtools/system.h:117 | `++counter` leaves the counter one higher modulo 2^32, and the expression's value is the new counter value |
| `SystemIds.Allocate` | include/brewtools/system.h:117 | initialising the ids of `n` distinct types, each through `PreIncrement(GetSysIdCount(...))`, advances the counter by `n`; the `i`-th type gets the counter's (`i`+1)-th value; exactly those types have ids |
| `SystemIds.CounterCountsAllocations` | include/brewtools/system.h:117 | after `n` allocations from the zero counter, the counter equals `n` |
| `SystemIds.IdsPositive` | include/brewtools/system.h:117 | every id handed out from the zero counter is at least 1 |
| `SystemIds.IdsIncreasing` | include/brewtools/system.h:117 | ids strictly increase in initialisation order |
| `SystemIds.IdsDistinct` | include/brewtools/system.h:117 | distinct system types get distinct ids |
| `SystemIds.IdsStable` | include/brewtools/system.h:104 | `id` is a `static const`: initialising further types does not change an id already handed out |
| `SystemIds.WrapGivesZero` | include/brewtools/system.h:117 | if the counter is at its maximum, the next id is 0; this is why the id properties need fewer than 2^32 system types |
| `SystemIds.GetId` | include/brewtools/system.h:99-102 | `GetID()` reads the type's static id: 0 while that id's initialiser has not yet run, and afterwards at least 1, namely one more than the number of system types initialised before it |
| `SystemIds.SameTypeSameId` | include/brewtools/system.h:99-104 | two objects of the same system type, even distinct ones, report the same id when asked at the same moment |
| `SystemIds.IdFixedOnceInitialised` | include/brewtools/system.h:104 | once a type's id is initialised, `GetID()` reports the same value however many further types are initialised |
| `SystemIds.IdReadBeforeInitialisation` | include/brewtools/system.h:117 | a `GetID()` call made before the type's dynamic initialisation reads the zero-initialised 0; one made just after reads its id |
| `SystemIds.ProtoUpdate` | source/system.cpp:41 | the base `Update` changes no state |
| `SystemIds.ProtoDestroy` | source/system.cpp:33 | the base destructor changes no state |

## Left out

- Real file and console I/O. The `std::ofstream` and `std::cout` writes are modelled as logs. Flushing (`std::endl`) and I/O errors after a successful open are not modelled.
- Physical lines. A log holds one entry per `<<` call. The message is not escaped, so a message containing `'\n'` spans several physical lines of the file or of standard output, and a reader of those lines can see forged entries. The read-back properties hold for log entries, not for physical lines.
- Stream formatting state. `<< m_level` is modelled with the default stream flags and the "C" locale: base ten, no padding, no digit grouping.
- Several Traces. `OwnsSelection` assumes that only one Trace selects consoles and that every console flag starts cleared. Two Traces that select the same console can clear each other's flag, because `SelectConsole` writes the Console's flag directly (source/trace.cpp:195-199).
- SystemIds.GetSysIdCount: the model has exactly one counter value, threaded from one step to the next, so "every call returns the same object" holds by construction rather than being proved. `Allocate` does step through `GetSysIdCount`, which leaves the counter unchanged.
- The outcome of opening a file is an input flag. The model does not decide which paths can be opened.
- The 3DS `consoleSelect` call inside `SelectConsole` (source/trace.cpp:200-205) is a platform call with no state the Trace can observe, so it is not modelled.
- Console lifetime. A Console that is destroyed while a Trace still points at it leaves a dangling pointer. The model assumes every console identity stays live.
- `SetMaxPrintLevel` is called by the example driver but defined in neither trace file, so it is not part of this model.
- Which C++ system type gets which id. It depends on static-initialisation order across translation units, which the language leaves unspecified. The model takes the order as an input.
- SystemIds.IdsPositive: stated only for fewer than 2^32 system types, because past that the 32-bit counter wraps to 0 (`SystemIds.WrapGivesZero`).
- SystemIds.IdsIncreasing: stated only while the counter does not wrap, for the same reason.
- SystemIds.IdsDistinct: stated only while the counter does not wrap, for the same reason.
- SystemIds.CounterCountsAllocations: stated only for fewer than 2^32 allocations, for the same reason.
- SystemIds.GetId: stated only for fewer than 2^32 system types, for the same reason. Which moment of static initialisation a call falls in (`done`) is an input: the model does not decide when other static initialisers run.
- Graphics, windows, GL contexts, the clock, the Windows and 3DS console bootstrapping, and the engine singleton. Each is a thin wrapper over a platform library or a shell with no state logic.
