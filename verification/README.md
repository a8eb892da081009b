# OpenRacing: verified models of its self-contained cores

A Dafny 4.11 model of the parts of the OpenRacing repository that decide things on their own:
the changelog printer and parser, the no-panic scanner and its allowlist ledger, the virtual
wheel and HID port, the file policy's path matching and selection, and the bounded logs,
counters and statistics around them. `dafny verify dfyconfig.toml` checks everything.

| module | what it models |
|---|---|
| `Text` | whitespace trimming, repeated prefix stripping, substring search, line splitting |
| `Changelog`, `ChangelogLayout`, `ChangelogRoundTrip` | `ChangelogEntry::to_markdown` and `from_markdown`, where everything is printed, and why they undo each other |
| `ChangelogValidator` | the section and list-item passes of the validation script |
| `BlockComments`, `NoPanicScan` | the line-wise comment remover, a character machine it is compared with, and `scan_file` |
| `TomlStrings` | a one-line TOML string written without escaping, and what the loader reads it as |
| `NoPanicLedger` | selector matching, fingerprints, staleness, and which findings are proposed |
| `NoPanicReload` | the proposed entries as a re-run reads them, and when they close the ledger |
| `WheelPhysics`, `VirtualDevices` | one physics step over real numbers; the shared state with its 1024-slot ring; handles |
| `RealArithmetic` | absolute value and the product and quotient orders the numeric models share |
| `PortModel`, `VirtualPorts` | the port as a state machine over whole runs, and the classes that refine it call by call |
| `PathGlob`, `FilePolicy` | `**` matching, specificity, and the selection of an allowlist entry for every file |
| `HealthLog`, `Timing`, `Allocation`, `Benchmarks` | the halving event log, percentiles, allocation counters, benchmark comparison |

Code that updates things in place is a method or a class whose contract names a function; the
lemmas are about those functions. Main results:

* **Changelog.** An entry survives print-then-parse exactly when it is *normal* (ordinary items
  non-empty, newline-free, ending in a visible character and unmarked; breaking items trimmed
  and newline-free), and every entry the parser can return, for any text, is normal. So
  print-after-parse is idempotent for every text. Every section and item stands at a line given
  by the lengths of the lists alone. A second, backward-searching definition says which bullets
  end up in which list.
* **Comments.** Over any file the line-wise remover equals one pass of a character machine
  exactly when the machine leaves no comment opener behind; gluing the two ends of a removed
  comment can create one (`GluedOpener`). Two files that read the same without comments have
  the same findings. The scanner reports exactly the hits on lines it does not skip, in order,
  each with the last header at or above it.
* **Ledger.** The script writes proposed entries without escaping, so a re-run does not read
  back what was meant for every finding. A written string reads back as itself exactly when it
  has no quote, no backslash and no control character. The re-read proposals leave nothing open
  exactly when each proposed finding is writable in this sense, or at least loads and shares its
  container with one whose fingerprint reads as empty. None of them is stale exactly when they
  are settled (`NoPanicReload.AllSettled`), and then nothing is open either; all are in use and
  keep their fingerprints exactly when every proposed finding is writable. `x.expect("boom");`
  makes the file unreadable and `s.split('\n')` stays open with a stale entry of its own. No old
  entry changes its staleness.
* **Wheel.** A step ends with the one speed that balances torque, friction and damping over its
  length, and turns the wheel by it unless that would pass a stop; the shared state is always
  the wheel its own writes and steps have driven. Friction acts on a wheel at rest as on one
  turning right, so a wheel left alone starts to turn left (`RestKeptIff`). A work-energy bound
  is invariant for steps of any length: the wheel never turns faster than 137.5 rad/s, because a
  step long enough for the damping term to overshoot carries the wheel past its stop. The
  reading never leaves 20 to 100 degrees; it is kept at 25 or more by exactly the step lengths
  up to 100 s. The ring read backwards is the write history, and the hands-on sum is the sum of
  the last `min(n, 100)` differences despite wrap-around.
* **Port.** The listed devices are those added and not removed since, in order. In every run a
  handle is alive afterwards exactly when it was alive before and its id was not removed,
  duplicates included; the class of the port inherits this for its own flags
  (`HandleAfterRun`). As long as no event was lost, replaying the events gives the listed ids;
  and one is lost exactly when announcements have outnumbered receives by more than 100 between
  two points of the run.
* **Paths.** Backtracking succeeds exactly when the path can be cut along the pattern. An exact
  entry wins over everything else listed exactly for paths of fewer than 999 segments, and
  spelling out a wild segment makes a pattern win in any listing order. The selection is the
  earliest entry of maximal specificity and partitions the governed files.

Where the code and its documentation disagree, the model follows the code:

* `scripts/policy_file.py:227` says `path` entries beat `glob` entries on ties; the loop keeps
  the earlier entry. From 999 path segments on an earlier glob takes a literal path from its
  exact entry (`FilePolicy.ExactEntryIsChosenIff`).
* `crates/engine/src/allocation_tracker.rs:59` says a guard resets the counters; it only reads
  them. The module promises a zero-allocation hot path, but a growing `realloc` passes the
  assertion (`Allocation.GrowthPassesZeroAlloc`); `Allocation.PassIsTrustworthyIff` says for
  which events a pass means that no byte was handed out.
* `scripts/policy_no_panic.py:392` asks for the proposed entries to be reviewed and moved into
  the allowlist; what the script wrote need not load (`NoPanicReload.QuoteRejectsFile`).
* `scripts/compare_benchmarks.py:240` describes an increase of a higher-is-better metric as an
  improvement; from a zero baseline any increase is reported as a regression, and so is its
  reverse (`Benchmarks.RegressesBothWaysIff`). Every metric the script extracts today is
  lower-is-better.
* `crates/engine/src/diagnostic.rs:199` removes the "oldest half": 500 of 1001 events.

## Model

| member | source | states |
|---|---|---|
| Text.TrimCut | crates/changelog/src/lib.rs:143-152 | trimming yields the text between two all-white margins, itself without white ends |
| Text.LinesUnlines | crates/changelog/src/lib.rs:134 | splitting newline-terminated lines gives the lines back, provided none holds a newline or ends in a carriage return |
| Text.LineEnds | crates/changelog/src/lib.rs:134 | a line ends before its newline and a carriage return there, or where the text ends |
| Text.LastPartIff | scripts/policy_file.py:88 | the last part of a path is a name exactly when the path is that name or a directory, a slash and the name |
| Changelog.TitlesAreExact | crates/changelog/src/lib.rs:176-186 | a heading names a section exactly when it is that section's printed title |
| Changelog.ToMarkdown | crates/changelog/src/lib.rs:85-127 | the pushed string is the entry's lines, sections in order, empty ones left out, breaking items first under Changed |
| ChangelogLayout.PrintedText | crates/changelog/src/lib.rs:88-93 | the text is the version line in its brackets, the dash and the date, then the body, each line ended by a newline |
| ChangelogLayout.Layout | crates/changelog/src/lib.rs:95-124 | every section stands directly after those before it, in the fixed order: blank line, heading, blank line, breaking items with their prefix, then the others |
| ChangelogLayout.LayoutComplete | crates/changelog/src/lib.rs:105-124 | no other line is printed, and each list goes under its own title |
| Changelog.FromMarkdown | crates/changelog/src/lib.rs:133-192 | the line loop with its section cursor computes `Parse`, including every error branch |
| ChangelogRoundTrip.UnmarkPrinted | crates/changelog/src/lib.rs:169-174 | the printed marker is stripped once, even from an item that itself starts with a marker or is empty |
| ChangelogRoundTrip.AlternateMarkerRead | crates/changelog/src/lib.rs:168-174 | an item marked with the colon inside the stars is read as the breaking item after the mark |
| ChangelogRoundTrip.HeaderParses | crates/changelog/src/lib.rs:89-93 | a printed header parses back to its version and date, negative years included |
| ChangelogRoundTrip.PartsParse | crates/changelog/src/lib.rs:213-247 | a header cut at its first brackets is read from the version between them and the date after them |
| ChangelogRoundTrip.CutExists | crates/changelog/src/lib.rs:218-229 | only a header that cannot be cut so is rejected for its format |
| ChangelogRoundTrip.BracketErrors | crates/changelog/src/lib.rs:218-229 | brackets are missing exactly when one kind does not occur, and invalid exactly when the first of all is a closing one and an opening one follows |
| ChangelogRoundTrip.ReadSection | crates/changelog/src/lib.rs:96-119 | reading back one printed section appends its items to their lists and changes nothing else |
| ChangelogRoundTrip.ParsedIsNormal | crates/changelog/src/lib.rs:151-191 | whatever the text, the parsed entry is normal |
| ChangelogRoundTrip.NormalRoundTrips | crates/changelog/src/lib.rs:85-192 | a normal entry parses back to itself, all seven lists in order |
| ChangelogRoundTrip.RoundTripIffNormal | crates/changelog/src/lib.rs:85-192 | an entry survives the round trip if and only if it is normal |
| ChangelogRoundTrip.NormalForm | crates/changelog/src/lib.rs:85-192 | for every text that parses, printing and parsing its entry again gives the same entry |
| ChangelogRoundTrip.PrintInjective | crates/changelog/src/lib.rs:85-127 | normal entries print alike only if they are equal |
| ChangelogRoundTrip.EmptyPrintsHeaderOnly | crates/changelog/src/lib.rs:195-203 | an entry is empty exactly when it prints as its header alone, and every item takes a line of its own |
| ChangelogRoundTrip.ParseMeaning | crates/changelog/src/lib.rs:149-189 | each list holds the bullets whose nearest heading above carries its title, and breaking items the marked bullets under any heading |
| ChangelogValidator.ValidateSectionFormat | scripts/validate_changelog.py:141-162 | reports, with line numbers, exactly the section headers with unknown names |
| ChangelogValidator.ValidateListItems | scripts/validate_changelog.py:165-204 | reports, with line numbers, exactly the untolerated lines below a section header |
| ChangelogValidator.SectionReports | scripts/validate_changelog.py:150-160 | a line is reported exactly when it is a section header with a name other than the six, under that name and its number |
| ChangelogValidator.ItemReports | scripts/validate_changelog.py:173-202 | a line is reported exactly when it is inside a section and not a header, blank, indented, or begun by a dash or a hash |
| ChangelogValidator.InSectionMeaning | scripts/validate_changelog.py:173-184 | a line is inside a section exactly when some section header above it has no version header between |
| ChangelogValidator.ReportsInOrder | scripts/validate_changelog.py:150-202 | the reports come in the order of the lines, at most one to a line |
| ChangelogValidator.PrintedChangelogPasses | scripts/validate_changelog.py:141-204 | both passes accept any sequence of printed entries with newline-free items |
| BlockComments.StripOneLine | scripts/policy_no_panic.py:171-189 | the loop ends, computes the cut-and-glue result and mode, and leaves no comment opener |
| BlockComments.RescanAgrees | scripts/policy_no_panic.py:180-189 | on one line, cutting and gluing equals the character machine if the machine leaves no opener |
| BlockComments.StripLineAgreesIff | scripts/policy_no_panic.py:171-189 | in either mode the line result equals the machine's if and only if the machine leaves no opener |
| BlockComments.NoTripleNoOpener | scripts/policy_no_panic.py:180-189 | a text without two slashes before a star leaves no opener, whatever the mode |
| BlockComments.GluedOpener | scripts/policy_no_panic.py:189 | a concrete line where gluing opens a comment the text does not have |
| BlockComments.StripLinesAgreeIff | scripts/policy_no_panic.py:170-189 | over whole files, text and final mode equal the machine's on the joined text, if and only if it leaves no opener |
| BlockComments.StripLinesCleanText | scripts/policy_no_panic.py:170-189 | so a file without two slashes before a star is cleaned as one text |
| NoPanicScan.ScanFile | scripts/policy_no_panic.py:162-211 | exactly the hits on unskipped comment-free lines are reported, with family, column, line number, trimmed text and innermost container |
| NoPanicScan.FindingsInOrder | scripts/policy_no_panic.py:200-210 | the findings of a line, one for each hit in order, stand after those of the lines above and before those below |
| NoPanicScan.FindingsAreHits | scripts/policy_no_panic.py:190-210 | every hit on an unskipped line is reported, and every report is such a hit |
| NoPanicScan.ContainerIsInnermost | scripts/policy_no_panic.py:192-195 | the container is named by the last unskipped header at or above the line, or is the file |
| NoPanicScan.FindingsUsable | scripts/policy_no_panic.py:193-210 | every finding names a container, shows a visible trimmed snippet, and lies on a line of the file |
| NoPanicScan.ScanIgnoresComments | scripts/policy_no_panic.py:162-211 | two files that read the same without comments have the same findings |
| NoPanicLedger.FingerprintMeaning | scripts/policy_no_panic.py:131-135 | at most 80 characters, single blanks only, and exactly the visible characters of the truncated snippet |
| NoPanicLedger.CollapseRun | scripts/policy_no_panic.py:135 | each run of white characters between two words becomes one blank |
| NoPanicLedger.KindTable | scripts/policy_no_panic.py:123-128 | which families are macro calls, which index expressions, and that all others are method calls |
| NoPanicLedger.KeyText | scripts/policy_no_panic.py:112-119 | the six parts of the key and their order |
| NoPanicLedger.KeyInjective | scripts/policy_no_panic.py:110-120 | the joined key determines path, family, container and fingerprint, and nothing more |
| NoPanicLedger.IdentityCollisionFree | scripts/policy_no_panic.py:110-120 | a digest that keeps the keys apart gives an identity that keeps the findings apart |
| NoPanicLedger.FirstMatch | scripts/policy_no_panic.py:284-291 | the receipting entry is the first that matches, and none exactly when no entry matches |
| NoPanicLedger.BlankSelectorMatches | scripts/policy_no_panic.py:221-229 | an entry without a selector matches exactly the findings of its path and family |
| NoPanicLedger.FieldAlone | scripts/policy_no_panic.py:230-239 | each field alone decides by equality, blank matches all, and a callee of two brackets stands for any |
| NoPanicLedger.FieldsDecide | scripts/policy_no_panic.py:221-239 | a selector matches exactly when each of its fields does alone |
| NoPanicLedger.BlankingKeeps | scripts/policy_no_panic.py:221-239 | blanking fields of a matching entry keeps it matching |
| NoPanicLedger.CoarseEntryReceipts | scripts/policy_no_panic.py:280-293 | an entry without a selector receipts every finding of its path and family, wherever it is listed |
| NoPanicLedger.RetiredNeverStale | scripts/policy_no_panic.py:284-299 | retiring an entry ends its staleness and leaves every match as it was |
| NoPanicLedger.MatchFindings | scripts/policy_no_panic.py:280-293 | splits the findings into receipted and unreceipted without loss, and marks exactly the entries reached first |
| NoPanicLedger.StaleEntries | scripts/policy_no_panic.py:295-299 | lists, in order, exactly the live entries no finding reaches first |
| NoPanicLedger.WriteProposed | scripts/policy_no_panic.py:388-425 | the records are those of the first finding of each identity, in order |
| NoPanicLedger.ExplanationText | scripts/policy_no_panic.py:412 | the explanation is the first 60 characters of the snippet after its mark, double quotes turned to single ones |
| NoPanicLedger.ProposedCoverOpen | scripts/policy_no_panic.py:398-402 | proposed are open findings only, one for every key of an open finding, and no key twice |
| TomlStrings.ReadBackIffPlain | scripts/policy_no_panic.py:408-419 | a value put between quotes unescaped reads back as itself if and only if it has no quote, backslash or control character; otherwise it is rejected or comes back shorter |
| TomlStrings.QuoteFreeReadsIffPlain | scripts/policy_no_panic.py:412 | without quotes and backslashes only a control character keeps a value from being read |
| TomlStrings.ShortEscapes | scripts/policy_no_panic.py:217-218 | each one-letter escape is read as its character |
| TomlStrings.CodePointReads | scripts/policy_no_panic.py:217-218 | four hexadecimal digits are read as the character they number, surrogates rejected |
| NoPanicReload.RereadIffWritable | scripts/policy_no_panic.py:404-420 | a record is re-read as the entry meant if and only if path, fingerprint and explanation have no quote, backslash or control character |
| NoPanicReload.ReadMatch | scripts/policy_no_panic.py:221-239 | a re-read entry with a fingerprint matches exactly the findings with the key it names; one without matches its whole container |
| NoPanicReload.ReloadMeaning | scripts/policy_no_panic.py:214-218 | the file loads if and only if every record in it reads |
| NoPanicReload.ClosesIffAnswered | scripts/policy_no_panic.py:280-293 | with the re-read proposals appended nothing is open if and only if each proposed finding is writable, or loads and shares its container with one that lost its fingerprint |
| NoPanicReload.ClosesIffWritable | scripts/policy_no_panic.py:280-293 | where no fingerprint reads as empty, nothing is open if and only if every proposed finding is writable |
| NoPanicReload.NoneStaleCloses | scripts/policy_no_panic.py:280-299 | if the proposals load and none is stale, nothing is open |
| NoPanicReload.NoneStaleIffSettled | scripts/policy_no_panic.py:295-299 | the proposals load and none is stale if and only if each finding that is not writable loads under its own path, reads like no other such finding, and either reads as the entry meant for one of them or lost its fingerprint and is proposed last of its container |
| NoPanicReload.AllInUseIffWritable | scripts/policy_no_panic.py:295-299 | none is stale and none lost its fingerprint if and only if every proposed finding is writable |
| NoPanicLedger.StaleUnchanged | scripts/policy_no_panic.py:295-299 | whatever is appended, an old entry is stale exactly when it was |
| NoPanicReload.QuoteRejectsFile | scripts/policy_no_panic.py:419 | the finding `x.expect("boom");` is written to a file that does not load |
| NoPanicReload.BackslashLeavesOpen | scripts/policy_no_panic.py:419 | the proposal for `s.split('\n').next().unwrap()` loads, is stale, and leaves its finding open |
| NoPanicReload.CommentDropsFingerprint | scripts/policy_no_panic.py:236-238 | the proposal for `" # x".unwrap()` loads without a fingerprint, matches and is not stale, although it is not what was meant |
| WheelPhysics.StepMotion | crates/engine/src/device.rs:156-176 | the step ends with the speed that balances torque, friction and damping and the angle it turns to, or stopped at 1080 degrees exactly when that angle lies beyond |
| WheelPhysics.StepBalance | crates/engine/src/device.rs:161-167 | a step that ends between the stops balances momentum and angle |
| WheelPhysics.StepHeat | crates/engine/src/device.rs:179-182 | the reading is the heated temperature cut to whole degrees, from 20 to 100 |
| WheelPhysics.RestKeptIff | crates/engine/src/device.rs:161-176 | a wheel at rest stays put if and only if the torque equals the friction or pushes it against its stop |
| WheelPhysics.StepMirrored | crates/engine/src/device.rs:161-182 | a turning wheel has no preferred direction |
| WheelPhysics.FirstPush | crates/engine/src/device.rs:150-182 | 10 Nm for a tenth of a second give a new wheel 9.95 rad/s and about 57 degrees |
| WheelPhysics.TurnaroundBounded | crates/engine/src/device.rs:161-176 | a step that reverses the wheel and ends between the stops ends no faster than the peak acceleration allows |
| WheelPhysics.StepWithinWork | crates/engine/src/device.rs:150-176 | every step of any length keeps the work bound on speed and the angle between the stops |
| WheelPhysics.WorkBoundsSpeed | crates/engine/src/device.rs:166-176 | the work bound limits the speed to 137.5 rad/s |
| WheelPhysics.AmbientKeptIff | crates/engine/src/device.rs:178-182 | a step length keeps every wheel at 25 degrees or more if and only if it is at most 100 s |
| WheelPhysics.RunsStayBounded | crates/engine/src/device.rs:150-182 | after any run of accepted writes and steps the angle, speed and temperature are in range |
| VirtualDevices.PushKeepsRing | crates/engine/src/device.rs:251-257 | overwriting the next slot keeps the newest 1024 elements of the history in the ring, within 25 Nm |
| VirtualDevices.RingIsHistory | crates/engine/src/device.rs:188-189 | the slot `k` back from the index holds the element `k` back in the history |
| VirtualDevices.HandsOnIff | crates/engine/src/device.rs:185-194 | hands are on the wheel if and only if the jumps of the last 100 writes, or of all, average more than 0.1 |
| VirtualDevices.WindowGrows | crates/engine/src/device.rs:187-191 | one more write brings its own jump into the sum |
| VirtualDevices.HandsOnSlides | crates/engine/src/device.rs:185-194 | after 100 writes the newest jump comes in and the oldest drops out |
| VirtualDevices.NetChangeBounded | crates/engine/src/device.rs:186-191 | the windowed sum bounds the net torque change over the window |
| VirtualDevices.HandsOffBoundsChange | crates/engine/src/device.rs:192-193 | a hands-off verdict bounds the net change by 0.1 times the window |
| VirtualDevices.SteadyTorqueIsHandsOff | crates/engine/src/device.rs:184-194 | a torque held over the window reads as hands off |
| VirtualDevices.DeviceState.constructor | crates/engine/src/device.rs:126-139 | a new state is valid: centred, at 35 degrees, hands on, with an empty history |
| VirtualDevices.DeviceState.StaysBounded | crates/engine/src/device.rs:150-197 | after whatever writes and steps the state is between its stops, below 137.5 rad/s and from 20 to 100 degrees |
| VirtualDevices.DeviceState.Push | crates/engine/src/device.rs:248-257 | an accepted write appends to history and run, sets the torque, and index, length and current slot follow |
| VirtualDevices.DeviceState.DifferenceSumOverRing | crates/engine/src/device.rs:186-191 | the loop over modular indices computes the sum of the last `min(n, 100)` differences of the history |
| VirtualDevices.Advance | crates/engine/src/device.rs:154-182 | the in-place updates compute the physics step |
| VirtualDevices.DeviceState.SimulatePhysics | crates/engine/src/device.rs:150-197 | the state takes one physics step, balanced between the stops, its run grows by it, and the hands-on flag follows the window once more than 10 writes were accepted |
| VirtualDevices.VirtualDevice.WriteFfbReport | crates/engine/src/device.rs:230-260 | which error, in which order, or acceptance; a rejected write changes nothing |
| VirtualDevices.VirtualDevice.ReadTelemetry | crates/engine/src/device.rs:262-277 | a snapshot while connected, nothing otherwise |
| PortModel.ListIsSurvivors | crates/engine/src/device.rs:340-383 | after any run the list holds the devices added and not removed since, in the order they were added |
| PortModel.StepAnnounces | crates/engine/src/device.rs:345-381 | what an add and a removal announce, and which device an open opens |
| PortModel.SendMeaning | crates/engine/src/device.rs:326-332 | a send appends while fewer than 100 events wait and is lost otherwise |
| PortModel.EmptyCoherent | crates/engine/src/device.rs:319-324 | a new port is coherent, so every run from it is |
| PortModel.StepCoherent | crates/engine/src/device.rs:340-383 | one call keeps every handle attached or dead, and only the removal of its id kills it |
| PortModel.HandlesDieOnlyByRemoval | crates/engine/src/device.rs:340-456 | over any run a handle is alive afterwards if and only if it was alive and its id was not removed |
| PortModel.OpenedHandleLife | crates/engine/src/device.rs:431-456 | an opened handle works at once and until its id is removed, never again after |
| PortModel.MonitorTracksDevices | crates/engine/src/device.rs:326-383 | over any run the delivered and waiting events replay to the listed ids, unless a send failed |
| PortModel.DrainedMonitorSeesList | crates/engine/src/device.rs:458-468 | a monitor that has drained its channel knows exactly the listed ids |
| PortModel.LostIffBurst | crates/engine/src/device.rs:326-332 | until a new monitor is made, a send fails if and only if announcements have outnumbered receives by more than 100 between two points of the run |
| PortModel.NoLossWithinCapacity | crates/engine/src/device.rs:461 | no send fails within 100 add and remove calls, even if nothing is received |
| VirtualPorts.EventChannel.Send | crates/engine/src/device.rs:326-332 | a send appends, or is dropped when 100 events wait |
| VirtualPorts.EventChannel.Recv | crates/engine/src/device.rs:577 | receiving takes the oldest waiting event |
| VirtualPorts.VirtualHidPort.AddDeviceShared | crates/engine/src/device.rs:340-358 | refines the add step: listed last, switched on, announced |
| VirtualPorts.VirtualHidPort.RemoveDeviceShared | crates/engine/src/device.rs:366-383 | refines the remove step: the first device of the id is switched off and announced, all of that id are unlisted |
| VirtualPorts.VirtualHidPort.OpenDevice | crates/engine/src/device.rs:431-456 | refines the open step: a fresh handle sharing state and flag with the first device of the id |
| VirtualPorts.VirtualHidPort.ListDevices | crates/engine/src/device.rs:419-429 | one record per device, in order, with the flag's current value |
| VirtualPorts.VirtualHidPort.MonitorDevices | crates/engine/src/device.rs:458-468 | refines the monitor step: a fresh channel replaces the old one |
| VirtualPorts.VirtualHidPort.HandleAfterRun | crates/engine/src/device.rs:340-456 | when the port's state is that of a run, a handle's flag is up if and only if it was before and its id was not removed |
| VirtualPorts.VirtualHidPort.HandleWorksIffAttached | crates/engine/src/device.rs:431-456 | in a coherent port a handle's flag is up exactly while it is on the first listed device of its id |
| PathGlob.Search | scripts/policy_file.py:170-185 | the search loop finds a match exactly when one split of the path matches |
| PathGlob.MatchIffCut | scripts/policy_file.py:170-185 | a match exists if and only if the path can be cut so that `**` takes any block and every other segment one matching segment |
| PathGlob.DoubleStarsCollapse | scripts/policy_file.py:174-180 | two adjacent `**` mean one, anywhere in a pattern |
| PathGlob.SlashFreeIsAnywhere | scripts/policy_file.py:158-167 | a pattern without a slash means the same as below `**` |
| PathGlob.SlashedGlob | scripts/policy_file.py:162-167 | a pattern with a slash matches exactly when the whole path can be cut along it |
| PathGlob.PlainGlob | scripts/policy_file.py:164-166 | a pattern without a slash is held against the file's name, in whatever directory |
| PathGlob.GlobScore | scripts/policy_file.py:146-155 | the accumulating loop computes the sum of the segment scores |
| PathGlob.SegmentAdds | scripts/policy_file.py:148-154 | a bare star or two adds nothing, a partly wild segment one, a literal one two |
| PathGlob.LiteralScoresMore | scripts/policy_file.py:148-155 | spelling out a wild segment scores more, wherever it stands |
| PathGlob.ExactScoreMeaning | scripts/policy_file.py:141-144 | an exact path scores 999 and one for each segment |
| PathGlob.PlainFits | scripts/policy_file.py:170-185 | a matching pattern has no more segments other than `**` than the path has segments |
| PathGlob.ExactPathWins | scripts/policy_file.py:141-155 | below 999 path segments every matching glob scores less than the exact entry |
| PathGlob.ExactPathWinsIff | scripts/policy_file.py:141-155 | for a literal path the exact entry beats every matching glob if and only if the path has fewer than 999 segments |
| FilePolicy.ChosenIsBest | scripts/policy_file.py:228-241 | the loop's choice is the earliest matching entry of maximal specificity, and none exactly when nothing matches |
| FilePolicy.LiteralPatternWins | scripts/policy_file.py:228-236 | of two patterns differing in one segment, literal in one and wild in the other, the wild one gets no file both match |
| FilePolicy.DirectoryBeatsExtension | scripts/policy_file.py:146-155 | files below a named directory go to its pattern and not to that of their extension, in either order |
| FilePolicy.RetiringFreesItsFiles | scripts/policy_file.py:132-133 | retiring an entry takes away its files and no others |
| FilePolicy.ExactEntryIsChosen | scripts/policy_file.py:225-236 | a file of fewer than 999 segments with a live exact entry goes to an exact entry |
| FilePolicy.ExactEntryIsChosenIff | scripts/policy_file.py:225-236 | a literal path goes to a live exact entry, whatever else is listed in any order, if and only if it has fewer than 999 segments |
| FilePolicy.ChooseEntry | scripts/policy_file.py:228-236 | the loop computes that choice, or raises KeyError exactly when a live entry has neither path nor glob |
| FilePolicy.GovernedMeaning | scripts/policy_file.py:83-89 | all files but Rust sources and those named Cargo.toml are governed |
| FilePolicy.CheckFiles | scripts/policy_file.py:218-247 | buckets, unmatched and unused lists are the files and entries of each choice, in order; KeyError exactly when an entry is malformed and a file governed, and an empty report when none is governed |
| FilePolicy.BucketsPartition | scripts/policy_file.py:237-240 | every governed file is in exactly one bucket or unmatched, as often as it occurs, and no other file is anywhere |
| FilePolicy.BucketMeaning | scripts/policy_file.py:225-240 | a file is in a bucket if and only if it is governed and that entry is best for it |
| FilePolicy.UnmatchedMeaning | scripts/policy_file.py:237-238 | a file is unmatched if and only if it is governed and no live entry matches it |
| HealthLog.KeptNext | crates/engine/src/diagnostic.rs:195-200 | the closed form of the log's length follows push and halving |
| HealthLog.LastIsEnd | crates/engine/src/diagnostic.rs:254-259 | the end of a sequence, of the length asked for or all of it |
| HealthLog.RecentIsTrueIff | crates/engine/src/diagnostic.rs:253-260 | a request gets the true last events of every history if and only if it asks for at most 501 |
| HealthLog.DiagnosticService.RecordHealthEvent | crates/engine/src/diagnostic.rs:193-206 | the log stays the last events of the history, and an active recorder is handed the event |
| HealthLog.DiagnosticService.StartRecording | crates/engine/src/diagnostic.rs:124-158 | which failure, in which order, changing nothing; on success the start event is in log and recorder |
| HealthLog.DiagnosticService.StopRecording | crates/engine/src/diagnostic.rs:161-168 | nothing to stop, the finalized path, or a failure; the recorder slot is empty in every case |
| HealthLog.DiagnosticService.GetRecentHealthEvents | crates/engine/src/diagnostic.rs:253-260 | the slice is the end of the log, and of the history up to 501 events |
| Timing.SortedIsUnique | benches/rt_timing.rs:46-51 | ascending arrangements of the same samples are equal, so any sort gives the same samples |
| Timing.IndexIsNearest | benches/rt_timing.rs:65-66 | on the scale the index is the nearest rank, halves rounding up |
| Timing.PercentileRank | benches/rt_timing.rs:57-67 | a percentile is a sample with its share of the samples on either side |
| Timing.PercentileMonotone | benches/rt_timing.rs:57-67 | percentiles grow with `p`, for every `p` |
| Timing.PercentileIgnoresOrder | benches/rt_timing.rs:39-67 | percentiles do not depend on the order of arrival |
| Timing.PercentileExtremes | benches/rt_timing.rs:65-66 | at or beyond the ends of the scale the percentile is the least or greatest sample |
| Timing.TimingCollector.AddSample | benches/rt_timing.rs:39-42 | the sample joins those added and the flag goes down |
| Timing.TimingCollector.Finalize | benches/rt_timing.rs:46-51 | afterwards the samples are the ascending arrangement of all added, and the flag is up |
| Timing.TimingCollector.PercentileOf | benches/rt_timing.rs:57-67 | the percentile of all samples added, or the panic when not finalized |
| Allocation.EventAdds | crates/engine/src/allocation_tracker.rs:24-56 | what each granted call adds to calls counted, bytes handed out and live bytes |
| Allocation.CappedMeaning | crates/engine/src/allocation_tracker.rs:29-33 | the counters stop at the largest 64-bit number |
| Allocation.CountersAreCappedTotals | crates/engine/src/allocation_tracker.rs:24-56 | saturating call by call equals saturating the exact totals once |
| Allocation.GuardIsExactIff | crates/engine/src/allocation_tracker.rs:74-96 | a guard's count and bytes are exact if and only if the totals fit, and then bound the live heap's growth |
| Allocation.ZeroAllocPassesIff | crates/engine/src/allocation_tracker.rs:132-143 | the assertion passes if and only if no allocation was granted or the counter was already full |
| Allocation.PassIsTrustworthyIff | crates/engine/src/allocation_tracker.rs:132-143 | with room in the counter a pass means that no byte was handed out if and only if some `alloc` was granted or no granted `realloc` grows its block; with none left, if and only if no granted call of either kind hands out bytes |
| Allocation.GrowthPassesZeroAlloc | crates/engine/src/allocation_tracker.rs:46-56 | growing a block passes the assertion while handing out bytes |
| Allocation.ThreadCounters.OnAlloc | crates/engine/src/allocation_tracker.rs:24-37 | the cells stay the capped totals of the trace |
| Allocation.ThreadCounters.OnRealloc | crates/engine/src/allocation_tracker.rs:46-56 | a growing realloc adds its difference and no allocation |
| Allocation.ThreadCounters.ResetCounters | crates/engine/src/allocation_tracker.rs:109-112 | both cells are zero and the trace starts over |
| Allocation.ThreadCounters.SinceStart | crates/engine/src/allocation_tracker.rs:85-96 | the saturating difference of counter and guard; without a reset in between that is exactly what happened since, while the totals fit |
| Allocation.ResetGuardExactIff | crates/engine/src/allocation_tracker.rs:85-112 | after a reset an older guard is exact, while the totals fit, if and only if nothing was counted before it or nothing after the reset |
| Benchmarks.VerdictMeaning | scripts/compare_benchmarks.py:189-248 | the verdict without division, both directions, zero baselines included |
| Benchmarks.ImprovementReverses | scripts/compare_benchmarks.py:231-238 | a lower-is-better improvement read backwards is a regression |
| Benchmarks.HigherImprovementReversesIff | scripts/compare_benchmarks.py:239-246 | a higher-is-better one is exactly when the gain also exceeds the tolerance as a share of the new value |
| Benchmarks.HigherImprovementCanVanish | scripts/compare_benchmarks.py:239-246 | 100 to 110.5 at 10% improves, and back is unchanged |
| Benchmarks.RegressesBothWaysIff | scripts/compare_benchmarks.py:204-248 | a metric regresses both ways exactly when higher is better, one value is zero and the tolerance is below 1 |
| Benchmarks.CompareMeaning | scripts/compare_benchmarks.py:291-306 | a comparison keeps the two runs apart, takes unit and direction from the first, and reports the change as a share of the first value |
| Benchmarks.CompareBenchmarks | scripts/compare_benchmarks.py:287-314 | one comparison per common metric, in order, and the two lists are those of their type |
| Benchmarks.TypesPartition | scripts/compare_benchmarks.py:309-314 | every comparison is in the list of its own type, as often as it occurs, and in no other |
| Benchmarks.SwappedRuns | scripts/compare_benchmarks.py:291-314 | with the runs swapped, a metric of one direction turns from improvement to regression exactly when lower is better or the gain also exceeds the tolerance as a share of the new value; it regresses both ways exactly in the one-zero case |

## Left out

- Changelog.FromMarkdown: versions and dates are read by functions passed in (`Formats`), assumed only to parse what they print and to print no brackets, newlines or white date margins; the wording of library errors is not modelled.
- Strings are sequences of characters: byte offsets, which agree at the ASCII brackets the header parser looks for, are not modelled.
- NoPanicScan.ScanFile: the container, skip and pattern regular expressions are functions passed in, assumed to report nothing on an empty line and to need a visible character; lines are taken as already split.
- NoPanicLedger.WriteProposed: the strings of each record, not the lines around them; the digest, owner, classification, expiry, line and column fields, which are constants, digits or hexadecimal, are not modelled, nor is the `expired` list.
- TomlStrings.ReadValue: one line at a time; a string that happens to open with three quotes and would go on over the next lines counts as not loading.
- NoPanicReload.ClosesIffAnswered: the 12-digit digest is assumed to keep the keys of the scanned findings apart, paths to hold no bar, and the scanner's names to be plain; moving the records into the allowlist is taken to keep their text.
- WheelPhysics.RunsStayBounded: real arithmetic; f32 rounding and NaN propagation are idealised, except that non-finite torques are rejected. The signum of zero is +1, and no step produces negative zero.
- VirtualDevices.DeviceState.SimulatePhysics: timestamps, decoded inputs, and the vendor, product, path and capability fields of the device record.
- PortModel.HandlesDieOnlyByRemoval: each port call is one atomic step; lock interleavings, poisoned locks and the test-only `disconnect` and `reconnect` on a device outside the port are not modelled. An added device brings its own flag, as moving it into the port guarantees.
- PortModel.MonitorTracksDevices: stated for the current monitor while no send has failed; a dropped receiver is not modelled.
- `set_device_inputs`, `simulate_physics` over all listed devices, and `refresh_devices` of the port.
- PathGlob.MatchIffCut: matching of one path segment (`fnmatchcase`) is a function passed in; `SlashFreeIsAnywhere` assumes that `**` matches every name and `ExactPathWinsIff` that a literal name matches itself.
- FilePolicy.CheckFiles: schema validation, expiry and report text.
- HealthLog.DiagnosticService.StartRecording: the recorder is the list of events handed to it; creating and finalizing it succeed or fail as a parameter says. File contents, replay and support bundles are not part of this model.
- Timing.TimingCollector.Finalize: the library's unstable sort is modelled by an ascending arrangement, which `SortedIsUnique` shows to be the only one; percentile ranks use real arithmetic.
- Allocation.ThreadCounters.OnAlloc: one thread; whether the system allocator grants a request is a parameter.
- Benchmarks.CompareBenchmarks: reading JSON files and sorting the common names, which are a parameter.
- `scripts/track_compat_usage.py` (counting legacy names per file and directory) and the profile conversions of `crates/cli/src/client.rs`.
- Fuzz targets, command-line parsing, gRPC transport, and git and cargo scripts: input and output only.
