# Fix-Firefox-Launcher, modelled in Dafny

FixFirefoxLauncher is a Windows service. It keeps Firefox's launch commands
in `HKEY_CLASSES_ROOT` holding a user-chosen option string, by default
`-private-window "%1"`. Firefox updates reset these commands, and the
service puts the option string back. This project models the whole of
`src/main.rs` except its Windows plumbing, and proves properties of the
model:

- **`extract_executable`** (`executable.dfy`). A scanner over the launch
  command that mirrors the regex `"(.+?)"`: the leftmost opening quote,
  then the nearest closing quote that leaves at least one character
  between the two. The wildcard `.` does not match `'\n'`.
- **Key discovery** (`discovery.dfy`). Splits the top-level key names by
  `^Firefox(.+?)-(.+?)$`, keeping the categories in enumeration order and
  the last install id. A `Firefox…` name the regex does not fit is the
  panic of `captures(..).unwrap()`, returned as an error.
- **Configuration resolution** (`config.dfy`). Three sources, each one
  overwriting the last: the defaults, the registry values
  `ffl_options`/`ffl_interval`, and the service arguments of the same
  names. The interval argument is parsed the way Rust's
  `str::parse::<u32>` does.
- **The reconcile rule** of `check_and_correct` (`registry.dfy`). It is
  stated on a store mapping key paths to named values. The default value
  has the name `""`.
- **The service** (`lifecycle.dfy`). The control handler, the status
  reports, and a `Service` class. The class holds the registry store, the
  stop flag, the status log and an integer clock. Its methods write the
  store in place (`CheckAndCorrect`), run the polling loop (`RunService`)
  and tie everything together (`ServiceMain`).

Time is an integer clock that each `sleep(1)` advances by one. The outside
world is an input: a sequence of `Second`s. Each holds the control events
delivered during that second and the changes the browser's updater makes,
in order: writing a launch command into a key (creating it if need be) or
removing a key.

Behaviour of the code that the model keeps as written:

- The arguments are `ffl_interval` and `ffl_options`. The registry
  overrides are the values of those names in
  `FirefoxHTML-<id>\shell\open\command`.
- A key name starting with `Firefox` that does not fit the regex (e.g.
  `Firefox-ABCDEF`) makes the service panic. It is not skipped with a
  warning: the `warn!` branches at src/main.rs:105 and :110 cannot be
  reached.
- An interval of 0 is accepted and gives a tick every second.
- A launch key that cannot be opened is a warning for that key only. The
  other keys are still processed and the service keeps running.
- Arguments are read only when more than one argument was passed.

## Model

| member | source | states |
|---|---|---|
| `Executable.CloseFrom` | src/main.rs:47 | the closing quote found is the nearest quote at or after the start with no line feed before it; when none is found, every later quote has a line feed before it |
| `Executable.MatchFrom` | src/main.rs:47 | a match starting at `i` ends at its lazy (shortest) closing quote; when none is returned, no match starts at `i` |
| `Executable.FirstMatchFrom` | src/main.rs:47-48 | the match returned starts at the leftmost index that starts any match and ends lazily; when none is returned, no match starts at or after `i` |
| `Executable.ExtractExecutable` | src/main.rs:46-52 | the result is "" exactly when the command has no quoted token with at least one character inside; otherwise it is the leftmost, shortest match, quotes included (at least 3 characters, a quote at each end); never longer than the input |
| `Executable.FirstMatchUnique` | src/main.rs:47-48 | at most one (start, end) pair is the leftmost, shortest match, so the contract of `ExtractExecutable` fixes its result |
| `Executable.ExtractExecutableKeepsPrefix` | src/main.rs:224-225 | the first quoted token of `exe + rest` is `exe` again when `exe` was itself extracted |
| `Text.ContainsSuffix` | src/main.rs:223-225 | a string contains any suffix of itself, so a rewritten command contains the options |
| `Text.ContainsEmpty` | src/main.rs:223 | every launch command contains the empty option string |
| `Discovery.DashFrom` | src/main.rs:91 | the first '-' at or after `p` that has a character after it, or proof that there is none |
| `Discovery.SplitKeyName` | src/main.rs:91-101 | an accepted name is `"Firefox" + category + "-" + id`, both parts non-empty with no line feed, and the category has no '-' after its first character; a name is rejected exactly when it lacks the prefix, holds a line feed, or has no usable '-' |
| `Discovery.SplitJoin` | src/main.rs:91 | splitting inverts joining: every pair the two groups can capture is read back from the name it forms |
| `Discovery.RejectedHasNoCapture` | src/main.rs:101 | a rejected name is not formed by any pair the regex could capture |
| `Discovery.HtmlKeyNameSplits` | src/main.rs:91-109 | `FirefoxHTML-ABCDEF` yields category `HTML` and install id `ABCDEF` |
| `Discovery.NameWithoutCategoryRejected` | src/main.rs:101-111 | `Firefox-ABCDEF` does not fit the regex, so `unwrap()` panics on it |
| `Discovery.Discover` | src/main.rs:95-112 | fails exactly when some `Firefox…` name does not fit, naming the first such name; otherwise `key_types` is `Categories` of all matching names' pairs, in enumeration order, and `install_id` is the id of the last match, or "" |
| `Discovery.SplitsSound` | src/main.rs:95-112 | every kept pair is a valid capture of a name in the enumeration |
| `Discovery.InstallIdEmptyIff` | src/main.rs:109-114 | with no rejected name, `install_id` stays "" exactly when no name starts with `Firefox` |
| `Registry.Rewrite` | src/main.rs:224-225 | the corrected command contains the option string |
| `Registry.Reconciled` | src/main.rs:212-246 | one reconcile keeps the set of keys, changes no other key and no other value of the key, keeps every readable launch entry readable, and leaves the entry absent or holding the options |
| `Registry.ReconcileNoWrite` | src/main.rs:223 | a launch command that already contains the options causes no write |
| `Registry.ReconcileEmptyOptions` | src/main.rs:223 | an empty option string never causes a write |
| `Registry.ReconcileWrites` | src/main.rs:223-233 | a launch command without the options is replaced by exactly `extract_executable(launch) + " " + options` |
| `Registry.ReconcileWithoutQuotedToken` | src/main.rs:224-225 | a command with no quoted token is replaced by `" " + options` |
| `Registry.ReconcileKeepsExecutable` | src/main.rs:224-225 | a rewrite keeps the quoted executable the command started with |
| `Registry.ReconcileIdempotent` | src/main.rs:223-233 | a second reconcile with the same options changes nothing |
| `Registry.ReconcileAll` | src/main.rs:264-266 | a tick keeps the set of keys and keeps every readable launch entry readable |
| `Registry.ReconcileAllSatisfies` | src/main.rs:241-244 | after a tick every tracked launch entry that exists holds the options, whichever other keys could not be opened |
| `Registry.ReconcileAllUnchanged` | src/main.rs:223 | a tick over entries that already hold the options writes nothing |
| `Registry.ReconcileAllIdempotent` | src/main.rs:264-266 | a second tick with the same options changes nothing |
| `Registry.ReconcileAllFrame` | src/main.rs:233 | a tick changes only the default values of tracked launch entries; other keys and other values keep their contents |
| `Config.RegistryOptions` | src/main.rs:125-136 | an override string is found exactly when the key opens and `ffl_options` exists with a string type |
| `Config.RegistryInterval` | src/main.rs:125-144 | an override interval is found exactly when the key opens and `ffl_interval` exists as a DWORD |
| `Config.ParseU32` | src/main.rs:168 | a parsed interval comes from a non-empty text starting with a digit or '+' |
| `Config.ParseU32Exact` | src/main.rs:168 | the text parses to `n` exactly when it is an optional '+', any run of zeros, then the decimal spelling of `n`; nothing else is accepted and no value is wrapped |
| `Config.ParseRejectsOverflow` | src/main.rs:168-170 | a value of 2^32 or more, with or without '+', does not parse, so the earlier interval stands |
| `Config.ParseRejectsNonDigit` | src/main.rs:168-170 | any character other than a digit, except a leading '+', makes the parse fail (e.g. "10s") |
| `Config.ParseLeadingZeros` | src/main.rs:168 | leading zeros are accepted, with or without '+', and do not change the value |
| `Config.ParseDecimal` | src/main.rs:168-169 | every `u32` written in decimal, with or without a leading '+', parses back to itself |
| `Config.ParseRejectsSign` | src/main.rs:168-170 | a text starting with '-' never parses |
| `Config.FirstArgument` | src/main.rs:154-175 | an argument value is used exactly when more than one argument was passed and the argument has a value |
| `Config.ResolveConfig` | src/main.rs:84-177 | options and interval are each the argument if usable, else the registry value if present, else the default (`-private-window "%1"`, 60); an argument with no value is the `vec[0]` panic |
| `Config.IntervalPrecedence` | src/main.rs:138-171 | registry 30 and argument "10" give 10; registry 30 alone gives 30; neither gives 60 |
| `Config.UnparseableIntervalKeepsEarlier` | src/main.rs:167-171 | an interval argument that does not parse keeps the registry value or the default |
| `Config.SingleArgumentIgnored` | src/main.rs:154 | with at most one argument the argument map changes nothing |
| `Config.MissingSettingsKeyKeepsDefaults` | src/main.rs:125-150 | when the override key cannot be opened the defaults stand unless an argument replaces them |
| `Lifecycle.EventHandler` | src/main.rs:200-208 | Stop and Interrogate, and only they, are answered NoError, all else NotImplemented; only Stop sets the stop flag |
| `Lifecycle.StatusReport` | src/main.rs:54-77 | every report is an own-process status in the given state, accepting Stop only, with exit code 0, checkpoint 0 and no wait hint |
| `Lifecycle.Period` | src/main.rs:261 | the seconds between ticks are at least 1 |
| `Lifecycle.TicksLeaveSatisfied` | src/main.rs:255-270 | every tick leaves every tracked launch entry that exists holding the options, whatever the updater did before |
| `Lifecycle.Service.HandleControl` | src/main.rs:199-209 | the answer is the handler's, and the stop flag becomes set exactly when it was set or the event is Stop |
| `Lifecycle.Service.CheckAndCorrect` | src/main.rs:212-246 | the store becomes `Reconciled` of the old store; the outcome is Unreachable exactly when the key is absent and AlreadySatisfied exactly when the command already holds the options |
| `Lifecycle.Service.ReconcileTick` | src/main.rs:262-266 | the store becomes `ReconcileAll` of the old store over `key_types` in order |
| `Lifecycle.Service.Deliver` | src/main.rs:200-208 | the stop flag is set exactly when it was set or the second holds Stop; the store is the old one with the updater's resets |
| `Lifecycle.Service.RunTick` | src/main.rs:262-269 | a tick replaces the store by `ReconcileAll` of it and is recorded; the run's tick log stays evenly spaced and chained to the store |
| `Lifecycle.Service.Poll` | src/main.rs:255-270 | one second passes and its events and updater changes arrive; then either nothing else changes, or a tick applies `ReconcileAll` to the store and restarts the timer; the timer never runs more than one period; the run's tick log stays chained to the store |
| `Lifecycle.Service.PollUntilStopped` | src/main.rs:253-271 | the loop ends at the first poll after a Stop; ticks ran every `Period(interval)` seconds, as many as fit before the stop; the first tick reconciles the initial store with the updater's changes so far, each later one the store the previous tick left with the changes since, and the store at exit is the last tick's with the changes after it |
| `Lifecycle.Service.RunService` | src/main.rs:196-283 | the status log gains exactly Running, StopPending, Stopped, in that order; the loop's guarantees about the ticks and the store hold; the clean-up adds one more second |
| `Lifecycle.Service.ServiceMain` | src/main.rs:79-194 | a rejected key name panics; no `Firefox` key means no run; on these exits and when an argument with no value panics, the status log, store, clock, stop flag and tick log are all unchanged; otherwise the run uses the discovered categories, the discovered install id and the resolved settings: its ticks reconcile those launch entries with those options, every `Period(interval)` seconds, chained to the store as in `PollUntilStopped` |

## Left out

- Windows service registration and dispatch (`main`, `define_windows_service!`, `service_dispatcher::start`, `service_control_handler::register`, `set_service_status`) are OS calls. They are assumed to succeed. Status reports are appended to a log.
- The event log (`eventlog::register`, `init`, `deregister`) and all `info!`/`warn!`/`error!` text are left out. This includes the slice `&launch_str[exec_str.len()..]` at src/main.rs:230, which only feeds a log message.
- The registry is a map from key path to named values. Windows matches key names without regard to case; the model compares them exactly.
- Errors from `enum_keys()`, unwrapped at src/main.rs:97, are left out. The enumeration is a plain sequence of names.
- `REG_EXPAND_SZ` and `REG_MULTI_SZ` are not modelled as separate types. A value read as `String` is one string kind (`Sz`).
- A failing `set_value` (src/main.rs:233-238) only logs an error. The model treats every write as successful.
- `get_value("").unwrap()` (src/main.rs:216) panics when a launch key has no string default value. This is a precondition: every launch key the service opens has one.
- `argmap::parse` and the `OsString` conversion are inputs. The model takes the parsed map from argument name to values, plus the raw argument count.
- The handler runs on another thread and shares an `AtomicBool` with the loop. The model delivers events at one-second granularity, between the loop's polls, and the flag is a plain boolean.
- `thread::sleep` and `Instant` become an integer clock. A tick takes no time.
- Without a Stop the loop runs forever. `RunService`, `PollUntilStopped` and `ServiceMain` require a schedule that delivers Stop at some point.
- The answers the handler returns to the OS are stated per event (`HandleControl`) but are not kept as a log across a run.
- `Lifecycle.ApplyResets`: the updater only writes string launch commands into the default value, or removes keys. It never writes a default value of another type. Such a value would make `get_value("").unwrap()` (src/main.rs:216) panic in the middle of a run. It never changes a key's other values either.
