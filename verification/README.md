# A model of the rollback bootloader, its flash map, and two small machines of the applications

The bootloader decides at every reset whether to install an upgrade, start the installed application, or
erase the primary slot and refill it row by row from the factory image in external flash. Power may fail
between any two flash operations or in the middle of one, driver calls may fail, the user may press the
button at any time, and the next reset finds whatever the flash holds.

* `Memory.dfy` - bytes, 32-bit wrap-around, rows of a slot. A row is named by the offset of its first byte.
* `FlashMap.dfy` - the area descriptors under every build condition, and exactly when they are disjoint.
* `BootMachine.dfy` - the bootloader as a state machine: one step per observable action of the code, the
  button interrupt, other wake-ups, the running application, and the power supply. `Run` is the state after
  a list of events, so a theorem about `Run(c, s, evs)` for all `evs` is about every run. `Initial` asks nothing of the
  flash but its size (`AnyFlashIsInitial`).
* `CopyLoop.dfy` - the copy loop by itself, over any flash, build and flash map.
* `BootInvariants.dfy`, `RollbackShape.dfy`, `BootSafety.dfy`, `RollbackCost.dfy`, `BootDecision.dfy`,
  `BootRecovery.dfy` - what every step keeps, and the runs that recovery is made of.
* `BootTheorems.dfy` - the promises over whole runs.
* `BuildModes.dfy` - promises that need a condition, each with the exact one.
* `BootCode.dfy` - the code of `main.c` as methods over arrays and fields. The machine runs beside the code in
  ghost fields: every driver call is followed by the machine's step, and the flash content the device holds then
  is recorded. `Valid()` says that the device holds what the machine holds, that after every step so far it held
  what the machine held, that CM4 is enabled exactly while the machine runs it, and that the driver calls that failed
  are those that failed in the machine's run; so wherever the power fails, the machine's theorems apply (`PowerFailsAnywhere`), and
  the code may start again at any reset of any run (`EveryResetTracked`).
* `StateManager.dfy`, `LedPacer.dfy` - the factory application's wait for the button, and the blinking LED of
  the update application.

Assumptions, stated as parts of the model:

* `boot_go` is MCUboot's and its source is not part of this model. Its contract here: a pending upgrade whose
  image is valid overwrites the primary slot; the request is gone afterwards; the call succeeds if and only if
  the primary slot is then valid. A power failure in the overwrite leaves arbitrary bytes in the primary slot
  and the request standing. `valid` is a parameter: the configuration comments out the full check of the
  primary slot (bootloader_cm0p/config/mcuboot_config/mcuboot_config.h:78) although README.md:453 says the slot
  is validated on every reset; `TornBootExactly` and `HeaderCheckBootsUnfinishedCopy` say what either means.
* `CY_ASSERT` stops the CPU in the default Debug build (bootloader_cm0p/Makefile:77). `Config.halts` is a
  parameter, because several promises hold only then; `BuildModes` gives the exact conditions.
* A driver call that reports failure has changed nothing, except that a failed erase may have erased some rows.
  Power lost while a row is erased or programmed leaves arbitrary bytes in that row.
* `Config.headerSize`, the erased byte value, the magic number, the row size and all sizes are parameters.
  `WellFormed` describes the default kind of build (single image, secondary slot in external flash); its size
  conditions are the exact ones of `FlashMap`, and that the slot is whole rows (which the transfer asserts, see
  `WholeRowsExactly`). What is about the copy loop alone asks for less, `Copyable`: whole rows, a slot size below
  2^32, and a slot's worth of addresses from the external base up to 2^32 at most.
* `Guarded` means that assertions halt or the factory region carries the magic; without it the loop may run over
  a slot that was never erased.

Where code and comments differ, the model follows the code. Found on the way:

* With assertions compiled out, a wrong magic does not stop the transfer: the result variable still says success,
  and rows are programmed over a slot that was never erased (`WriteDisciplineExactly`).
* With assertions compiled out, a failed rollback returns into `main`, which then starts CM4 with the response
  it got before the slot was erased (`FreshnessExactly`).
* The check that the slot is whole rows comes after the erase (`WholeRowsExactly`).
* A press that lands between looking at the flag and executing WFI does not wake the CPU (`LostPressExactly`).
* The second secondary slot is placed by the size of the first primary slot (`DisjointExactly`).
* `notified_val && USER_EVENT_DETECT_FLAG` is a logical test, not a bit test; it happens to agree on every value
  that can arrive (`SafeInEveryInterleaving`, `TestsAgreeExactly`).

## Model

| member | source | states |
|---|---|---|
| FlashMap.DisjointExactly | common/ext_flash_map.c:64-165 | In every build configuration and for all sizes, areas on one device share no address if and only if, in the external dual-image layout, the first secondary slot is no bigger than the first primary slot (or the second secondary slot is empty) |
| FlashMap.RollbackSourceFreeExactly | bootloader_cm0p/main.c:220-230 | The window the rollback reads meets no area of the map if and only if the primary slot is no bigger than the space reserved for the factory application (or the secondary slot is empty) |
| FlashMap.OpensExactly | common/ext_flash_map.c:64-165 | In every build configuration, opening an id yields an area with the device, the offset (nothing wraps) and the size its macros give, and nothing where the configuration has no such area |
| FlashMap.InternalMapIsContiguous | common/ext_flash_map.c:64-149 | In every build configuration, internal areas with nothing between them in the table abut |
| FlashMap.OpenFindsArea | common/ext_flash_map.c:152-165 | Opening any descriptor's id finds that descriptor and no other |
| FlashMap.DefaultMapFits | common/make_support/shared_config.mk:39-59 | With the default sizes the map consists of three areas at the addresses and of the sizes written out; it is disjoint, avoids the factory region, and every area lies inside its device |
| BootMachine.OffsetsAreTheMaps | bootloader_cm0p/main.c:172-173 | The slots the machine writes are those that opening image 0's primary and secondary ids in the flash map yields |
| BootMachine.MagicExactly | bootloader_cm0p/main.c:184-195 | The magic test accepts exactly when the first four bytes of the factory region are those of IMAGE_MAGIC, lowest first |
| BootInvariants.CursorRun | bootloader_cm0p/main.c:228-266 | For any slot of whole rows below 2^32 bytes with base + size <= 2^32, under any flash map and in any build: in every run, wherever the loop uses them, slot offset = index and factory offset = base + index modulo 2^32; the buffer holds the factory row about to be programmed; no access leaves its window; nothing outside the two slots changes |
| BootInvariants.BaseRun | common/ext_flash_map.c:64-98 | With a sound flash map, moreover, no run changes the factory region or its magic |
| CopyLoop.CopyLoopRun | bootloader_cm0p/main.c:228-266 | Under the same sizes, from where the cursors are set up and for any results of reads and writes, over erased or unerased flash: the flash is what it was with the first index bytes of the slot replaced by the factory region's; success means the slot equals the region; failure means exactly the rows before the failing one were copied |
| CopyLoop.SuccessMeansCopied | bootloader_cm0p/main.c:228-278 | Under the same sizes, in every run of every build, whatever magic there is and however often power failed: a transfer that reports success has made the slot equal to the factory region |
| RollbackShape.ShapeRun | bootloader_cm0p/main.c:204-278 | If assertions halt or the magic is right, every run keeps the invariant behind the crash theorems: what is erased, copied or finished at each point of the code, and that old and factory rows never mix, through any power failures |
| RollbackShape.RowCopied | bootloader_cm0p/main.c:243-265 | Programming the next factory row turns n copied bytes with a blank rest into one row more with a blank rest |
| RollbackShape.NeverMixedExactly | bootloader_cm0p/main.c:204-266 | What "never mixed" means, byte by byte: there is one image, the installed or the factory one, such that each undamaged row of the slot has all of its bytes or is erased |
| BootTheorems.WholeRunFrame | common/ext_flash_map.c:64-98 | In no run, crashing or not, does any of the bootSize bytes at the start of the internal flash change, or any of the slot's worth of bytes at the start of the external one |
| BootTheorems.AreaUntouched | common/ext_flash_map.c:64-98 | Any area that meets neither slot keeps every byte in every run |
| BootTheorems.UpgradeInstallsSecondary | README.md:405 | A check of the model's boot_go contract against the flash map: a pending valid upgrade puts each byte of the secondary slot at the same place of the primary slot; otherwise the primary slot keeps every byte; no request is left |
| BootTheorems.OtaInstalls | README.md:405 | From any run in which CM4 runs: an upgrade the application stores is in the primary slot after the next reset, byte for byte (cut or filled up to the slot), if it is valid, and CM4 runs it unless the button is held; otherwise the slot holds what it held; no request is left |
| BootTheorems.RowFailureTears | bootloader_cm0p/main.c:207-256 | The power failing while a row is erased or programmed leaves anything in that row, every other byte as it was, and a reset |
| BootTheorems.UpgradeFailureTears | bootloader_cm0p/main.c:391 | The power failing while an upgrade overwrites the slot leaves anything in the slot, and the request standing |
| BootTheorems.CrashInvariant | bootloader_cm0p/main.c:204-266 | If assertions halt or the magic is right: at every point of every run, apart from rows damaged by a power failure, all rows of the primary slot are old-or-blank or all are factory-or-blank; in the copy loop it is whole factory rows up to the cursor and blank behind; a row is programmed only while blank |
| BootTheorems.TransferOutcome | bootloader_cm0p/main.c:211-278 | In every build a transfer that reports success has made the slot equal to the original factory region; if assertions halt or the magic is right, one that reports failure after rows were read (where assertions halt: any) has left exactly the rows copied so far and a blank rest |
| BootTheorems.RowFailure | bootloader_cm0p/main.c:246-260 | If assertions halt or the magic is right: when reading or programming a row fails, at any point of any run, the transfer reports failure with exactly the rows before it copied and a blank rest |
| BootTheorems.RestartIdempotence | bootloader_cm0p/main.c:208-266 | If the magic is right, any sequence of interrupted attempts followed by a complete one leaves the slot that one uninterrupted attempt leaves |
| BootTheorems.Recoverability | README.md:451-453 | From every state of every run, if the factory region has its magic and is valid, cycling the power and pressing the button ends with CM4 running exactly the factory image |
| BootTheorems.Freshness | bootloader_cm0p/main.c:322-350 | Where assertions halt, every run starts CM4 only with the response of a boot_go that approved exactly what the slot still holds |
| BootTheorems.BootDecisionTheorem | bootloader_cm0p/main.c:390-449 | In every power cycle of every run: upgrade first, then the button; the image CM4 runs is a function of the flash at reset and the button; and a failure-free cycle that has ended runs CM4 if and only if that function names an image |
| BootTheorems.EntryInsideSlot | bootloader_cm0p/main.c:293-305 | The entry address is slot start plus header size, inside the slot, and 1024-aligned when both are |
| BootDecision.CycleRun | bootloader_cm0p/main.c:361-450 | The invariant of a power cycle behind the decision theorem, point by point of main |
| BootSafety.SaneRun | bootloader_cm0p/main.c:334-345 | Every run keeps: no upgrade is pending from boot_go until an application runs, the interrupt is armed exactly in the wait loop, and (where assertions halt) responses in use are current |
| BootSafety.LoopLeftOnlyOnPress | bootloader_cm0p/main.c:428-449 | In every interleaving the wait loop is left only if the button interrupt ran while armed, and after the disarm-and-clear sequence flag and interrupt stay off for the rest of the power cycle |
| BootSafety.FirstWakeUpLeaves | bootloader_cm0p/main.c:428-443 | Once the flag is set the first wake-up from WFI leaves the loop, whatever comes in between |
| BootSafety.LostPressExactly | bootloader_cm0p/main.c:421-433 | A single press without another wake-up leaves the CPU asleep for good if and only if it lands after the flag was looked at and before WFI |
| BootSafety.HeldExactly | bootloader_cm0p/main.c:401-408 | A rollback counts as asked for at start-up if and only if main read the pin as pressed in this power cycle |
| RollbackCost.CompletedRollbackCost | bootloader_cm0p/main.c:184-266 | If assertions halt or the magic is right: the n-th row a rollback programs is the n-th row of the slot; a completed transfer has cost one magic read and one erase, read and program operation per row |
| RollbackCost.NothingAfterStart | bootloader_cm0p/main.c:293-311 | A check of the model: once CM4 is enabled the machine has no flash operation left in that power cycle |
| RollbackCost.RollbackEnds | bootloader_cm0p/main.c:241-266 | From any point of a rollback in any run, whatever calls fail and whatever comes in between: it takes at most Rank more steps (4 per row and 7 from the start) and is over exactly when none are left; if no call fails and the magic is right every step leaves exactly one fewer; and while it lasts some successful call takes it on |
| RollbackCost.FailureFreeRollback | bootloader_cm0p/main.c:184-266 | A rollback with the right magic in which no call fails reports success after exactly 4 steps per row and 5, with the slot equal to the factory region |
| BootRecovery.TransferRuns | bootloader_cm0p/main.c:154-279 | A failure-free transfer from the right magic reports success, step by step |
| BuildModes.WriteDisciplineExactly | bootloader_cm0p/main.c:195-218 | Every run programs only blank rows if and only if assertions halt or the magic is right (given an installed image that is not all blank) |
| BuildModes.FreshnessExactly | bootloader_cm0p/main.c:401-411 | Every run starts CM4 only on what the slot holds if and only if assertions halt (given a valid installed image, the right magic and an erased slot that is not valid) |
| BuildModes.WholeRowsExactly | bootloader_cm0p/main.c:207-241 | Where assertions halt and the magic is right, some run completes a transfer if and only if the slot is a whole number of rows |
| BuildModes.TornBootExactly | bootloader_cm0p/config/mcuboot_config/mcuboot_config.h:73-78 | If assertions halt or the magic is right, and the verdict reads n bytes, accepts the factory image and rejects its shorter prefixes: a power failure in the copy loop between two operations leaves a slot the next reset accepts if and only if n bytes were copied; once they were, so does one in the middle of a row, whatever it leaves there |
| BuildModes.UnreadRowErased | bootloader_cm0p/main.c:207-208 | Erasing a row the verdict does not read, or losing power in the middle of it, does not change what the next reset decides |
| BuildModes.HeaderCheckBootsUnfinishedCopy | bootloader_cm0p/config/mcuboot_config/mcuboot_config.h:73-78 | If the verdict reads the header magic only (and assertions halt or the magic is right), every copy of one row or more is accepted at the next reset, however the power fails |
| BuildModes.OffsetExactly | factory_cm4/Makefile:40 | Shifting an image by an offset puts each of its bytes where the rollback looks for it, for all images and previous contents, if and only if the offset is the distance from primary slot to external flash modulo 2^32 |
| BuildModes.RoundTrip | common/make_support/mtb_feature_ota.mk:145 | Programming the factory image with that offset and completing a rollback, however often interrupted, puts every byte back at its link address |
| BuildModes.ProgrammedKeeps | factory_cm4/Makefile:40 | Programming with an offset changes no byte but those the image's addresses are moved to |
| BuildModes.DefaultOffset | factory_cm4/Makefile:40 | The default HEADER_OFFSET is that distance |
| BootCode.Bootloader.PowerFailsAnywhere | bootloader_cm0p/main.c:204-266 | After every step the code has taken, the flash it held then is what a power failure at that point of the machine's run leaves |
| BootCode.Bootloader.UserButtonCallback | bootloader_cm0p/main.c:116-123 | The interrupt handler sets the flag, and wakes the CPU if it sleeps |
| BootCode.Bootloader.CopyFactoryRows | bootloader_cm0p/main.c:228-266 | The copy loop, for base + size up to 2^32, any flash map and any results of its reads and writes, takes only steps of the machine, replaces the first index bytes of the slot by the factory region's and no other byte, and succeeds if and only if that is the whole slot |
| BootCode.Bootloader.ReadImageMagic | bootloader_cm0p/main.c:184-195 | The value read is the one whose bytes, lowest first, start the factory region, and it is IMAGE_MAGIC if and only if the machine's test accepts |
| BootCode.Bootloader.TransferFactoryImage | bootloader_cm0p/main.c:154-279 | It succeeds if and only if no driver call fails and the magic is right (or assertions do nothing), and then the slot equals the factory region; failure after rows were read, if assertions halt or the magic is right, means whole factory rows and a blank rest; a failed open or magic read, or (where assertions halt) a wrong magic, ends it with the flash as it was; and all its steps are the machine's |
| BootCode.Bootloader.DoBoot | bootloader_cm0p/main.c:293-305 | CM4 is started at slot start plus header size, in 32 bits |
| BootCode.Bootloader.RollbackToFactoryImage | bootloader_cm0p/main.c:322-350 | It never returns where assertions halt; it enables CM4 if and only if it ends by starting it, and then with boot_go's approval of what the slot holds; if no driver call fails, the magic is right and no upgrade is pending, it starts the factory image if and only if that is valid; and all it did is a run of the machine |
| BootCode.Bootloader.TakeNap | bootloader_cm0p/main.c:428-443 | One turn of the wait loop leaves it if and only if the button interrupt has run |
| BootCode.Bootloader.WaitForButton | bootloader_cm0p/main.c:419-446 | The wait ends if and only if the button is pressed at some turn, and then flag and interrupt are off |
| BootCode.Bootloader.BootMain | bootloader_cm0p/main.c:361-453 | main is a run of the machine. It is still waiting if and only if nothing valid is installed and the button is never pressed (or it stopped in start-up). CM4 is enabled if and only if main ends by starting it; where assertions halt, the image is the one decided by the flash at reset and the button, the slot holds it and boot_go approved it; and if no driver call fails, the CPU stops in an assertion only if no image is decided |
| StateManager.SafeInEveryInterleaving | factory_cm4/source/state_mgr.c:171-190 | In every interleaving the logical test equals the bit test on whatever arrives, and network_init runs at most once and only after a press |
| StateManager.TestsAgreeExactly | factory_cm4/source/state_mgr.c:179 | The two tests agree on exactly zero and the values with the first bit set |
| StateManager.NoPressIsLost | factory_cm4/source/state_mgr.c:116-197 | Once a press is taken after the event is enabled, network_init runs exactly once and the state manager ends, whatever presses and time-outs interleave |
| StateManager.NothingWithoutPress | factory_cm4/source/state_mgr.c:171-190 | Without a press the network is never initialised |
| StateManager.PressesCounted | factory_cm4/source/state_mgr.c:152-190 | A press has been taken if and only if the button was pressed after the event was enabled |
| StateManager.Task.UserButtonCallback | factory_cm4/source/state_mgr.c:116-129 | The interrupt handler ends a wait with the bit set, and otherwise leaves a notification outstanding and does not move the waiting code |
| StateManager.Task.StateMgr | factory_cm4/source/state_mgr.c:142-198 | Its own loop takes steps of the machine and finishes, with one network_init, if and only if the button is pressed at some turn |
| LedPacer.UserLed.ToggleUserLed | blinky_cm4/source/led.c:59-73 | One call is one poll of the wrapping interval test |
| LedPacer.WrapIsHarmlessExactly | blinky_cm4/source/led.c:61-72 | The wrapping test agrees with true time on every sequence of polls at most gap ticks apart if and only if interval + gap < 2^32 |
| LedPacer.Spacing | blinky_cm4/source/led.c:61-72 | For polls at most gap ticks apart with interval + gap < 2^32, successive toggles of the code's pin are more than interval and at most interval + gap ticks of true time apart, and after every poll the last one is at most interval ticks ago |
| LedPacer.SpacingExactly | blinky_cm4/source/led.c:61-72 | The code keeps that spacing on all such polls if and only if interval + gap < 2^32 |
| LedPacer.BlinkRate | blinky_cm4/source/led.c:59-73 | For polls at most gap ticks apart with interval + gap < 2^32: between any two polls T ticks apart the number n of times the code toggles the pin satisfies n * (interval + 1) <= T + interval and T <= n * (interval + gap) + interval |
| LedPacer.BlinkRateExactly | blinky_cm4/source/led.c:59-73 | The code keeps that rate between any two of all such polls if and only if interval + gap < 2^32 |

## Left out

- MCUboot's internals (image parsing, hashes, signatures, trailers, the copy of an upgrade) and the SMIF and flash drivers: not part of this model; the contracts above stand for them.
- UART, logging, clock and pin set-up, `deinit_hw`, deep sleep and the assertions on the UART: hardware plumbing; the start of `main` is one call that may fail.
- BuildModes.TornBootExactly: says nothing of a row the verdict reads that is damaged in the middle of being programmed, because the verdict then depends on bytes the code does not choose (CrashInvariant covers such rows); the same holds for an erase of rows the verdict reads, where it depends on what the verdict makes of the old image with rows missing.
- BuildModes.WriteDisciplineExactly: says nothing of an installed image that is all blank, where what is overwritten depends on later upgrades and attempts.
- BootSafety.LostPressExactly: does not claim that one press always makes progress, because it does not.
- Programming a row that is not blank is modelled as overwriting it, where real flash may keep cleared bits; no promise rests on it, since it happens only in the builds WriteDisciplineExactly singles out.
- The machine covers the default single-image build with an external secondary slot; the other layouts are covered as maps only, and whether they fit a device is not stated.
- BootCode: each driver call is a method of its own with the machine's step behind it, the C function that transfers the image is split between them, and the turns of the wait loop are read from a list, so that each method ends; the interrupt is taken only at the points where its effect can differ.
- Notifications after the state manager has deleted itself, other senders of notifications, and the LED task it starts.
- Wi-Fi and OTA agents, the demo runner, key provisioning and the scripts: network clients with at most a bounded loop.
- Crypto, FreeRTOS, lwIP and trace configuration headers, the table of contents in cy_serial_flash_prog.c, linker scripts: constants.
