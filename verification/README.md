# Isolation on RP2350: a verified model

The repository shows how to separate trusted from untrusted code on RP2350, once with the RISC-V PMP and
once with Armv8-M TrustZone, and carries the TF-M platform code the second is distilled from. This project
models the parts that decide who may touch what, and proves what they keep -- for every address, every
register value, every program on the untrusted side and every number of steps.

`dafny verify dfyconfig.toml` checks everything.

## The PMP monitor

`Bits` and `Memory` are 32-bit words with explicit wrap-around and a byte memory of 2^32 addresses. `Pmp` is
address matching, priority and permission (RISC-V Privileged Architecture v1.12, section 3.7.1) with Hazard3's
PMPCFGM0, and the NAPOT encoding. `Monitor` holds the hart state, the dispatcher and the trampoline, the latter
as 39 instructions for a small interpreter; every M-mode access is checked against the PMP, and `nested` records
one that is refused. `Hart` is the same monitor as code that updates registers, CSRs and memory in place, proved
against those functions; `Boot` is `main`.

`Sign`, `Trampoline`, `Services` and `Faults` say what one call or one trap does. `UserRuns` lets U-mode be *any*
function from fetched bits, registers and pc to an action, and states what every run keeps; `Noninterference`
compares two runs that differ in the secret word. What the compiled dispatcher leaves in caller-saved registers
is arbitrary throughout.

## TF-M on RP2350

`Mpu` is the PMSAv8 lookup (Arm DDI 0553): inclusive 32-byte granules, overlapping matches fault, PRIVDEFENA is a
background map for privileged code. `TfmHal` is the isolation HAL as a class with its loops and early exits;
`TfmRuns` and `TfmChecks` are about one bind, every run of binds, boundary switching and the memory check, and
`TfmMeaning` restates the results by asset, register value, linker symbol and handle bit.
`AccessCtrl` is `bus_filter_cfg` against a device that may do anything on a write or a read. `RegionTables` turns the
SAU and DMA-MPU register writes of both code bases into attributions of all 2^32 addresses and compares them.

## The TrustZone gate

`Cmse` models `cmse_check_address_range` by the "Address range check intrinsic" section of Arm's *Armv8-M Security
Extensions: Requirements on Development Tools*: no wrap, equal responses at both end points, sufficient
permission; and carries the result from the end points to every byte. `SecureService` is `secure_sign` with its
bounce buffers, the counter, and every interleaving of calls, Non-Secure stores and Non-Secure DMA.

## Where code and comments differ, or promises need a condition

The model follows the code.

- `reference/target_cfg.c:281` says the DMA-MPU mirrors the SAU. Region 1 is closed with the veneer limit (line
  295), so it is empty: `TfmMirrorIff`.
- `examples/minimal-tz/secure/tz_config.c:86` says the same of minimal-tz. Region 2 (lines 113-116) runs from
  Non-Secure RAM through to the PPB, over a gap the SAU leaves Secure: `TzMirror`, `DmaReachesIff`.
- The guard at `examples/minimal-pmp/main.c:117` is exact wherever the linker can put `g_prot` except in the
  first and the last 64 bytes of the address map: `GuardExactIff`.
- `examples/minimal-pmp/main.c:166-168` says the self-test skips the faulting load by its length. The length is
  read after the handler's own stores, which may have hit the opcode: `ResumesOnBoundaryIff`, `ResumesMidInstruction`.
- `tfm_hal_bind_boundary` does not compare a new range with those configured. Two partitions may share a device,
  and then it faults for everyone: `SharedMmioLost`, `OverlapFaults`, `AccessAfterRun`.
- `tfm_hal_memory_check` looks at end points only. For a privileged partition a read-write check can succeed over
  a read-only region in the middle of the buffer: `PrivilegedCheckGap`, `PrivilegedCheckEveryByte`.

## Model

| member | source | states |
|---|---|---|
| `Pmp.NapotRoundTrip` | examples/minimal-pmp/main.c:95-99 | For every base and size: decoding the word `pmp_napot` returns, by the trailing-ones rule, gives back `[base, base + size)` if and only if size is a power of two of at least 8 and base is a multiple of it |
| `Pmp.NapotInjective` | examples/minimal-pmp/main.c:95-99 | Two such blocks with the same `pmpaddr` word are the same block |
| `Pmp.CfgValue` | examples/minimal-pmp/main.c:267-269 | The or-and-shift expression for `pmpcfg0` is `0x1F18` |
| `Pmp.ProgrammedMeaning` | examples/minimal-pmp/main.c:259-271 | With the registers `pmp_isolate_secret` writes, for every naturally aligned access of every kind: U-mode, and M-mode while PMPCFGM0 covers entry 0, may make it iff it misses `g_prot`; M-mode otherwise always |
| `Boot.PmpIsolateSecret` | examples/minimal-pmp/main.c:259-271 | The four CSR writes establish the register contents the previous row speaks of, with PMPCFGM0 clear, and touch no other CSR |
| `Sign.GuardExact` | examples/minimal-pmp/main.c:112-119 | For every buffer of 1 to 64 bytes and every `g_prot` at least 64 bytes from either end of the address map, with the sums taken modulo 2^32: the guard rejects iff some byte of the (possibly wrapping) buffer lies in `g_prot` |
| `Sign.GuardExactIff` | examples/minimal-pmp/main.c:112-119 | Among the 64-byte aligned positions of `g_prot` the guard is exact for all buffers iff `g_prot` is neither the first nor the last block of the address map |
| `Sign.SvcSignMeaning` | examples/minimal-pmp/main.c:107-123 | While M-mode is unrestricted, `svc_sign` changes nothing if the guard rejects; otherwise buffer byte i becomes its old value xor `key[i % 16]`, every other byte staying, although the loop re-reads the key while it writes |
| `Sign.SvcSignTwice` | examples/minimal-pmp/main.c:107-123 | Signing any buffer twice restores the whole state |
| `Bits.XorBits` | examples/minimal-pmp/main.c:121 | Bit i of the exclusive or of two numbers is set iff it is set in exactly one of them; `Xor8`, on which both services rest, carries this in its contract |
| `Sign.SvcSignBytes` | examples/minimal-pmp/main.c:107-123 | From memory to memory: a byte is signed iff it is among the len <= 64 bytes from the buffer, counted modulo 2^32, none of which lies in `g_prot`; then buffer byte i has each bit flipped where byte i % 16 of the key at `g_prot` + 8 has a one; all else stays |
| `Harts.Hart.SvcSign` | examples/minimal-pmp/main.c:107-123 | The loop over hart memory computes the closed form above, accepted or rejected |
| `Services.EcallMeaning` | examples/minimal-pmp/main.c:142-157 | An ecall with M-mode free takes no nested PMP fault and amounts to: run the service on memory, store its result in the a0 slot |
| `Services.SelfTestMeaning` | examples/minimal-pmp/main.c:159-172 | The self-test branch takes no nested PMP fault even with M-mode restricted: the restriction is lifted before the opcode halfword, which may lie anywhere, is read |
| `Services.HaltMeaning` | examples/minimal-pmp/main.c:173-183 | The two endless-loop branches take no nested fault either, M-mode restricted or not |
| `Services.DispatchMeaning` | examples/minimal-pmp/main.c:137-184 | For every cause, frame and memory the dispatcher equals its closed form with no PMP check left; only a U-mode call needs PMPCFGM0 clear |
| `Harts.Hart.TrapDispatch` | examples/minimal-pmp/main.c:137-184 | The dispatcher that updates hart memory and CSRs step by step has exactly that effect |
| `Harts.Hart.Ecall` | examples/minimal-pmp/main.c:142-154 | The switch over a7: counter, sign and unknown service, each with its memory effect and result slot |
| `Harts.Hart.SelfTest` | examples/minimal-pmp/main.c:160-171 | The self-test branch as a sequence of stores, CSR writes and the halfword read |
| `Harts.Hart.Execute` | examples/minimal-pmp/main.c:192-208 | One trampoline instruction on the hart, PMP-checked; misaligned or refused accesses set `nested` |
| `Harts.Hart.TrapEntry` | examples/minimal-pmp/main.c:190-209 | Running all 39 trampoline instructions in a loop is the interpreter applied to the program text |
| `Harts.Hart.TakeAndHandle` | examples/minimal-pmp/main.c:190-209 | Trap entry in hardware followed by the trampoline, as one state change |
| `Trampoline.DispatchKeeps` | examples/minimal-pmp/main.c:137-184 | Whatever the dispatcher does, it leaves registers, mode, pc, mscratch, mcause, mtval, mtvec and MPP alone, and PMPCFGM0 can only be cleared |
| `Trampoline.TrampolineMeaning` | examples/minimal-pmp/main.c:190-209 | For every register file, memory and dispatcher scratch values: swap, sixteen stores, call, sixteen loads, swap and mret are one step that saves the frame, dispatches and returns with mscratch again the stack top, or stays in the dispatcher |
| `Trampoline.FrameIsCallerSaved` | examples/minimal-pmp/main.c:129-133 | The sixteen saved registers are exactly those a C function may spoil: ra, t0-t6, a0-a7 |
| `Services.TrapMeaning` | examples/minimal-pmp/main.c:137-209 | The whole trap, hardware entry included, in closed form for every cause |
| `Services.EcallRefinesAtomic` | examples/minimal-pmp/main.c:137-209 | The concrete ecall path equals one atomic service step -- a0 and pc + 4 modulo 2^32, the service's own memory effect, the saved registers on the trap stack, mscratch restored, nothing else -- for every state, iff no byte of a signed buffer among the saved a1 to ra meets a non-zero key byte |
| `Services.EcallAnswers` | examples/minimal-pmp/main.c:54-55 | In numbers: a7 = 0 answers the counter at `g_prot` + 4, gone up by one modulo 2^32, a7 = 1 answers 0, anything else 0xFFFFFFFF; no register but a0 changes and execution goes on at pc + 4 |
| `Services.EcallBytes` | examples/minimal-pmp/main.c:142-157 | ... and of the memory off the frame a7 = 0 changes the four counter bytes at most, a7 = 1 the signed buffer bit by bit, anything else nothing |
| `Faults.FaultHandled` | examples/minimal-pmp/main.c:159-179 | Every load or store access fault from either mode, restricted or not: if the stage flag says self-test, all registers survive, the restriction is lifted, execution resumes behind the instruction as the handler measures it, and only the frame, one mailbox word and the flag change; otherwise cause, address and 0x600D are recorded and the hart stops. No nested trap |
| `Faults.ResumesOnBoundaryIff` | examples/minimal-pmp/main.c:166-170 | The recovered program goes on at pc + 4 if the low two bits of its opcode are both set and at pc + 2 otherwise, iff the opcode halfword, after the saved registers, the cause and the stage flag are written, still shows that length; always when it shares no byte with that data |
| `Faults.ResumesMidInstruction` | examples/minimal-pmp/main.c:163-170 | Where it does not: a four-byte load of `g_prot` run out of g_mb[2] with the stage flag forged resumes in the middle of the instruction |
| `Faults.UnexpectedTrap` | examples/minimal-pmp/main.c:181-183 | Every other trap records 0xDEAD, changes nothing else outside the saved frame, and stops the hart |
| `Faults.BlockedLoad` | examples/minimal-pmp/main.c:243-251 | A U-mode load of any width touching `g_prot` never delivers a value: the hart stops with the fault recorded, or, if U-mode forged the stage flag, skips the load with every register unchanged |
| `Boot.ClearMailbox` | examples/minimal-pmp/main.c:275-278 | All twelve mailbox words are 0 but the magic, and nothing outside the mailbox changes |
| `Boot.InitProt` | examples/minimal-pmp/main.c:280-284 | Secret, counter and the sixteen key bytes hold their initial values, nothing outside `g_prot` changes |
| `Boot.SelfTestRead` | examples/minimal-pmp/main.c:295-296 | The M-mode read of the secret under PMPCFGM0 = 1 always faults and always recovers |
| `Boot.Xh3Demo` | examples/minimal-pmp/main.c:292-297 | The whole demonstration: read, restrict, fault once, recover on the next boundary, read again, with exactly the recorded words changed |
| `Boot.DropToUser` | examples/minimal-pmp/main.c:299-306 | The drop: U-mode at the entry point with the stage and progress words set |
| `Boot.BootToUser` | examples/minimal-pmp/main.c:273-306 | From any reset memory `main` reaches U-mode with M-mode free, mscratch the stack top, the trap vector set, secret, counter and key installed and the mailbox reporting the self-test, each by value |
| `Boot.FromTheDropOn` | examples/minimal-pmp/main.c:137-306 | From that state, for every U-mode program and every number of steps: the secret word and the key are what `main` wrote, PMPCFGM0 is 0, no trap was nested, and the n-th counter call returned n modulo 2^32 |
| `UserRuns.InstructionKeeps` | examples/minimal-pmp/main.c:259-271 | An instruction that completes in U-mode, whatever it is, changes no byte of `g_prot` and no CSR |
| `UserRuns.ServiceKeeps` | examples/minimal-pmp/main.c:107-154 | Any service call with any arguments changes at most the counter inside `g_prot`, and the counter exactly when asked |
| `UserRuns.TrapKeeps` | examples/minimal-pmp/main.c:137-209 | Any trap with all its handling, whatever U-mode left in memory: same statement, and the monitor is again ready for U-mode or stopped |
| `UserRuns.RunKeeps` | examples/minimal-pmp/main.c:107-209 | Every run of any U-mode program (self-modifying, overwriting mailbox, flag or trap stack): secret, key and padding never change, PMPCFGM0 stays 0, no nested trap, and the counter is its start value plus the number of counter calls modulo 2^32 -- provided the compiled dispatcher needs nothing of its own on the trap stack while `svc_sign` runs |
| `UserRuns.CounterAnswers` | examples/minimal-pmp/main.c:143-146 | The n-th SVC_GET_COUNTER of every run returns n modulo 2^32 in a0 |
| `Noninterference.TrapAlike` | examples/minimal-pmp/main.c:137-209 | Handling the same trap on two machines that differ only in the secret word keeps them so, even if the dispatcher's scratch registers held the secret |
| `Noninterference.StepAlike` | examples/minimal-pmp/main.c:107-209 | The same for one step of U-mode |
| `Noninterference.RunsAlike` | examples/minimal-pmp/main.c:107-209 | Two machines equal but for the secret word, running the same program from the drop, stay equal but for that word for ever |
| `AccessCtrl.ListsPartition` | reference/target_cfg.c:188-203 | The three lists hold each of the 54 registers exactly once, and the planned write of each has its class value |
| `AccessCtrl.Controller.WriteAndReadBack` | reference/target_cfg.c:220-228 | One write-and-read-back loop: device state after all writes and reads, and error iff it was set before or some read-back differed, for any device whose writes and reads may change its whole state |
| `AccessCtrl.Controller.BusFilterCfg` | reference/target_cfg.c:185-255 | Success iff every one of the 54 read-backs matched, for any such device; reset and masks before, lock after |
| `AccessCtrl.BusTraffic` | reference/target_cfg.c:214-254 | On any device it is exactly these bus accesses in this order: block reset, the two GPIO masks, the 54 writes each read back at once, the lock word 0xACCE0006 |
| `AccessCtrl.FilteredFront` | reference/target_cfg.c:214-252 | On a block of eight-bit registers, Core0 not being shut out, it leaves both GPIO masks and the lock bits of core 1 and the DMA set -- LOCK is 6 if no bit was set before |
| `AccessCtrl.ClassValues` | reference/target_cfg.c:29-44 | The access classes by value: 0xFE, 0x9C or 0xBC for the three lists, 0x98 and 0x9C for bound devices, only the latter with SU |
| `AccessCtrl.SuccessCertifies` | reference/target_cfg.c:220-254 | On a device where neither the four class values, nor reads, nor the lock disturb what another register shows, success means every one of the 54 registers still shows its class value at the end |
| `AccessCtrl.WritableSucceeds` | reference/target_cfg.c:214-254 | Started in a state where the block takes what Core0 writes, all read-backs match, and after the lock word it still takes it |
| `AccessCtrl.EightBitMeets` | reference/target_cfg.c:20-27 | Eight-bit registers behind password, block reset and a sticky LOCK that can shut Core0 out satisfy the premises of these rows, the writable states being those where it has not |
| `AccessCtrl.LockKeepsCore0` | reference/target_cfg.c:250-252 | The lock word 0x6 leaves Core0 in control of such a block |
| `AccessCtrl.LockSevenShutsOut` | reference/target_cfg.c:250-252 | With 0x7 no later write of any kind would change anything |
| `AccessCtrl.Controller.ConfigureToSecurePrivileged` | reference/target_cfg.c:257-263 | One password-protected write of the privileged class, none for AC_DO_NOT_CONFIGURE |
| `AccessCtrl.Controller.ConfigureToSecureUnprivileged` | reference/target_cfg.c:265-271 | The same with the unprivileged class |
| `AccessCtrl.ConfigureShows` | reference/target_cfg.c:257-271 | Where the block takes its writes, one gives its register the Secure class of the new owner, leaves what every other register shows, and the block still takes writes |
| `AccessCtrl.ConfigureNoWider` | reference/target_cfg.c:257-271 | In any state, a later per-peripheral write, taken or ignored, adds neither non-secure bit to any register |
| `TfmChecks.BindClasses` | reference/tfm_hal_isolation_rp2350.c:317-329 | Where the block takes its writes: after a successful bind every register named by the partition's assets shows the Secure class of its privilege, and every other register what it showed before |
| `TfmChecks.RunReady` | reference/target_cfg.c:250-271 | Set-up, lock word included, and every run of binds leave the block taking the writes of the next bind |
| `TfmChecks.BindClassesAfterRun` | reference/tfm_hal_isolation_rp2350.c:317-329 | So the statement about one bind holds at every point of every run after set-up |
| `TfmMeaning.BindClassesByAssets` | reference/tfm_hal_isolation_rp2350.c:303-329 | ... by value and asset: every register of a named asset the platform does not skip reads 0x98 for a privileged and 0x9C for an unprivileged partition, every other one what it read before |
| `TfmChecks.BindLeavesClasses` | reference/tfm_hal_isolation_rp2350.c:303-349 | Failed or not, a bind has given its class to the registers of the references its loop got to, the one that stopped it included if it is on the allow-list, and to no other |
| `TfmMeaning.LockHeld` | reference/target_cfg.c:250-252 | From a reset block, after set-up and any run of binds, LOCK reads 6 and the GPIO masks are as written |
| `TfmChecks.RunNoWider` | reference/tfm_hal_isolation_rp2350.c:317-329 | Over every run of binds, failed ones included, no register gains the NSU bit and no cleared NSP bit returns |
| `TfmChecks.NonSecureNeverGains` | reference/target_cfg.c:185-271 | From a `bus_filter_cfg` that reported success through every run of binds: no register ever grants unprivileged Non-Secure access, and the Secure-only ones no Non-Secure access |
| `Mpu.LookupIsMembership` | reference/tfm_hal_isolation_rp2350.c:235-247 | With granule-aligned disjoint ranges, PMSAv8 lookup allows an unprivileged access iff the address lies in a range with that permission |
| `Mpu.OverlapFaults` | reference/tfm_hal_isolation_rp2350.c:367-374 | An address in two configured ranges is refused to everyone |
| `TfmRuns.SharedMmioLost` | reference/tfm_hal_isolation_rp2350.c:303-382 | Two unprivileged partitions that name the same allowed, aligned device both bind if there is room, and afterwards no one, privileged or not, may read, write or execute any byte of it |
| `Mpu.MembershipIffDisjoint` | reference/tfm_hal_isolation_rp2350.c:235-247 | Lookup equals membership at all addresses iff the ranges are pairwise disjoint |
| `Mpu.PrivilegedLookup` | reference/tfm_hal_isolation_rp2350.c:244-247 | Privileged code over the same table reads everything, writes all but the read-only ranges, executes in no execute-never range |
| `Mpu.RbarBits` | reference/tfm_hal_isolation_rp2350.c:76-80 | RBAR: address in bits 31:5, read-only, unprivileged and execute-never in bits 2, 1 and 0 |
| `Mpu.RlarBits` | reference/tfm_hal_isolation_rp2350.c:102-113 | RLAR: limit in bits 31:5, PXN in bit 4, enable in bit 0 |
| `TfmHal.StaticTablePrograms` | reference/tfm_hal_isolation_rp2350.c:70-174 | Each RBAR/RLAR pair of the static table encodes, for unprivileged code, exactly the address range and permissions it is meant to open, for every choice of build options |
| `TfmMeaning.UnprivilegedAccess` | reference/tfm_hal_isolation_rp2350.c:66-391 | By linker symbol, after set-up and any run of binds with ranges that do not overlap: unprivileged code reads veneers, code, data and accepted devices, writes data and accepted devices, executes veneers and code, nothing else |
| `TfmMeaning.PrivilegedExecution` | reference/tfm_hal_isolation_rp2350.c:80-158 | By linker symbol: privileged code executes veneers and unprivileged core code, application code iff PXN is not in use or the isolation level is 1, data never |
| `TfmMeaning.RegionAttributes` | reference/tfm_hal_isolation_rp2350.c:70-172 | Code regions name memory attribute 0, data 1, devices 2 |
| `TfmHal.Hal.ClearAll` | reference/tfm_hal_isolation_rp2350.c:203-206 | Every region's limit register is cleared, base registers kept |
| `TfmHal.Hal.Configure` | reference/tfm_hal_isolation_rp2350.c:237-241 | The table occupies the first regions, the others are untouched |
| `TfmHal.Hal.SetUpStaticBoundaries` | reference/tfm_hal_isolation_rp2350.c:66-253 | SAU, ACCESSCTRL and DMA are programmed in that order, the DMA only if every read-back matched, and stay so on failure; success iff they matched and the MPU has enough regions; then it holds exactly the static table, enabled; failure leaves MPU, region count and boundary |
| `TfmHal.Hal.FindAllowed` | reference/tfm_hal_isolation_rp2350.c:307-316 | The search loop finds a reference iff it is on the allow-list |
| `TfmHal.Hal.BindAsset` | reference/tfm_hal_isolation_rp2350.c:304-381 | The loop body for one named asset, with its five ways out |
| `TfmHal.Hal.BindBoundary` | reference/tfm_hal_isolation_rp2350.c:265-391 | The nested loops compute the fold over the named assets that the next rows are about; null arguments change nothing; the handle is written iff binding succeeds |
| `TfmMeaning.NamedInOrder` | reference/tfm_hal_isolation_rp2350.c:303-306 | The fold runs over the named MMIO assets in asset order: asset i comes at the place given by the number of named assets before it, and there are as many as named assets |
| `TfmMeaning.NamedIff` | reference/tfm_hal_isolation_rp2350.c:303-306 | A reference takes part iff some named MMIO asset carries it |
| `TfmMeaning.UnnamedIgnored` | reference/tfm_hal_isolation_rp2350.c:304-306 | An asset that is not named MMIO can be left out without changing anything |
| `TfmMeaning.BindByAssets` | reference/tfm_hal_isolation_rp2350.c:282-390 | Bind succeeds iff every named asset is on the allow-list and the partition is PSA RoT, or the level is 1, or every named asset starts and ends with a granule and regions are left for all of them |
| `TfmMeaning.BindRegions` | reference/tfm_hal_isolation_rp2350.c:330-380 | Success gives named asset i the region after those of the named assets before it, read-write, unprivileged, execute-never, from its start to its limit, and rewrites no other region; a privileged partition leaves the MPU alone |
| `TfmRuns.UnprivilegedBind` | reference/tfm_hal_isolation_rp2350.c:303-382 | Binding an unprivileged partition fills the next free regions in asset order for as long as assets are allowed, aligned and find room; it succeeds iff that is all of them |
| `TfmRuns.PrivilegedBind` | reference/tfm_hal_isolation_rp2350.c:303-335 | Binding a privileged partition leaves the MPU alone and succeeds iff all its assets are allowed |
| `TfmRuns.BindSucceedsIff` | reference/tfm_hal_isolation_rp2350.c:282-390 | The same over the list of references, with the regions added: exactly those of the references in order, none if privileged |
| `TfmRuns.SetUpConfigured` | reference/tfm_hal_isolation_rp2350.c:188-247 | Set-up establishes the run invariant: enabled, count right, exactly the static ranges |
| `TfmRuns.BoundConfigured` | reference/tfm_hal_isolation_rp2350.c:330-382 | Every bind, successful or not, appends the accepted ranges and rewrites no configured region |
| `TfmRuns.RunConfigured` | reference/tfm_hal_isolation_rp2350.c:265-391 | Every run: the MPU is enabled after every call, `n_configured_regions` never exceeds the unit or decreases, the static regions survive, and the unit holds the static ranges followed by every accepted MMIO range |
| `TfmRuns.NeverRewritten` | reference/tfm_hal_isolation_rp2350.c:371-376 | A region configured at any point of a run has the same registers at every later point |
| `TfmRuns.AccessAfterRun` | reference/tfm_hal_isolation_rp2350.c:66-391 | After set-up and any sequence of binds unprivileged code may read, write and execute exactly what the static ranges grant and read and write exactly the accepted MMIO -- at all addresses iff those ranges are pairwise disjoint |
| `TfmChecks.HandleRoundTrip` | reference/tfm_hal_isolation_rp2350.c:384-388 | Privilege and Non-Secure agency can be read back from the handle bind encodes, whose four values are 0 to 3 |
| `TfmChecks.HandleBits` | reference/tfm_hal_isolation_rp2350.c:25-28 | They are its bits 1 and 0 |
| `TfmHal.Hal.ActivateBoundary` | reference/tfm_hal_isolation_rp2350.c:393-406 | After activation nPRIV is what the handle asks for and every other CONTROL bit is as before |
| `TfmChecks.LazyIsEager` | reference/tfm_hal_isolation_rp2350.c:393-406 | From a CONTROL in step with the current handle, activating only when `tfm_hal_boundary_need_switch` says so gives after every switch of every schedule the CONTROL that always activating gives |
| `TfmChecks.LazyRefinesEager` | reference/tfm_hal_isolation_rp2350.c:457-469 | The two schedulers agree on all schedules iff CONTROL starts in step with the current boundary |
| `TfmMeaning.NoSwitchIff` | reference/tfm_hal_isolation_rp2350.c:460-468 | No switch is asked for exactly between equal handles and between privileged ones |
| `TfmMeaning.InStepBits` | reference/tfm_hal_isolation_rp2350.c:398-403 | In step: CONTROL bit 0 is the opposite of handle bit 1 |
| `TfmChecks.OtherBitsKept` | reference/tfm_hal_isolation_rp2350.c:400-403 | After every switch nPRIV is what the handle asks for and all other CONTROL bits are the original ones |
| `TfmHal.Hal.MemoryCheck` | reference/tfm_hal_isolation_rp2350.c:408-455 | Size 0 is a success whatever the base; otherwise base 0 or no read access is an invalid input, and nothing else is; every other failure is a memory fault. The flag word built step by step asks the intrinsic for the privilege, permission and MPU that handle and access type call for |
| `TfmChecks.MemoryCheckIff` | reference/tfm_hal_isolation_rp2350.c:408-455 | For an unprivileged Secure handle, a Secure buffer and size > 0: success iff base is not 0, reading is asked for, nothing wraps, the whole buffer lies in one configured range with the permission, and the attribution unit does not tell its two ends apart |
| `TfmChecks.MemoryCheckEveryByte` | reference/tfm_hal_isolation_rp2350.c:408-455 | Success then means the MPU grants the asked access at every byte, not just at the end points looked at |
| `TfmChecks.PrivilegedCheckIff` | reference/tfm_hal_isolation_rp2350.c:408-455 | For a privileged Secure handle, a Secure buffer and size > 0: success iff base is not 0, reading is asked for, nothing wraps, both ends lie in the same range or both in none, that range is writable if writing is asked for, and the attribution unit does not tell the ends apart |
| `TfmChecks.PrivilegedCheckEveryByte` | reference/tfm_hal_isolation_rp2350.c:408-455 | Success then means reading is granted at every byte, and writing at every byte iff no read-only range reaches into the buffer |
| `TfmChecks.PrivilegedCheckGap` | reference/tfm_hal_isolation_rp2350.c:408-455 | An input where it does: after set-up with unprivileged code at 0x10000020-0x1000003F a read-write check of 0x10000000-0x1000005F succeeds, and the first byte of that code cannot be written |
| `TfmChecks.NonSecureCheckEveryByte` | reference/tfm_hal_isolation_rp2350.c:430-448 | Success with the Non-Secure flag or the Non-Secure agent's handle means every byte is Non-Secure |
| `TfmChecks.NonSecureCheckIff` | reference/tfm_hal_isolation_rp2350.c:422-454 | For the Non-Secure side and tables without overlap, success iff base is not 0, reading is asked for, nothing wraps, both ends lie in the same regions of both units, the first byte is Non-Secure, and the Non-Secure MPU grants the access there at the privilege of the Non-Secure caller or the handle |
| `TfmChecks.NonSecureCheckPermits` | reference/tfm_hal_isolation_rp2350.c:434-450 | ... and the Non-Secure MPU, if its regions do not overlap, grants at every byte reading, and writing to an unprivileged caller; to a privileged one iff no read-only region reaches in |
| `Cmse.CheckedIsNonSecure` | examples/minimal-tz/secure/secure_service.c:55-64 | A range that passes the end-point check with CMSE_NONSECURE is Non-Secure in every byte, whenever the attribution regions do not overlap |
| `Cmse.CheckedIsOneRegion` | reference/tfm_hal_isolation_rp2350.c:434-450 | A range that passes an unprivileged check lies, every byte of it, in one and the same MPU region with the permission |
| `Cmse.CheckedEveryByte` | reference/tfm_hal_isolation_rp2350.c:434-450 | What a passed check grants at every byte to an unprivileged and to a privileged caller, the latter exactly |
| `Cmse.CheckRangeIff` | examples/minimal-tz/secure/secure_service.c:55-64 | Exactly when the intrinsic passes, for tables without overlap: no wrap, both ends in the same regions of the units that are on, permission and attribution at the first byte |
| `RegionTables.SauPort.SauAndIdauCfg` | reference/target_cfg.c:133-183 | The indexed register writes produce the table; regions 0, 1, 5 and 6 keep what they held |
| `RegionTables.TfmSauMeaning` | reference/target_cfg.c:152-177 | That table attributes every one of the 2^32 addresses: veneers callable, Non-Secure partition and SRAM4 up to the PPB Non-Secure, the rest Secure |
| `RegionTables.DmaPort.DmaSecurityConfig` | reference/target_cfg.c:281-318 | The DMA-MPU table the writes leave, all eight regions |
| `RegionTables.TfmDmaMeaning` | reference/target_cfg.c:281-318 | Non-Secure to the DMA are exactly the veneers and SRAM4 up to the PPB: region 1, closed with the veneer limit, covers nothing |
| `RegionTables.TfmDmaIsSauWithoutFlash` | reference/target_cfg.c:281-301 | At every address the DMA-MPU Non-Secure set is the SAU Non-Secure or callable set minus the Non-Secure flash partition |
| `RegionTables.TfmMirrorIff` | reference/target_cfg.c:281-301 | The two tables mirror each other, as the comment asks, iff the Non-Secure partition is empty |
| `RegionTables.DmaPrivileged` | reference/target_cfg.c:291-301 | Every region either DMA-MPU table enables is for privileged bus masters only |
| `RegionTables.LimitBits` | reference/target_cfg.c:153-174 | The low bits of every limit word: enable, and NSC or privileged |
| `RegionTables.SauPort.TzSauConfig` | examples/minimal-tz/secure/tz_config.c:45-72 | The indexed writes of minimal-tz leave this table and an enabled unit |
| `RegionTables.TzSauMeaning` | examples/minimal-tz/secure/tz_config.c:45-72 | Attribution of every address under that table |
| `RegionTables.TzSauSeparate` | examples/minimal-tz/secure/tz_config.c:45-72 | No address lies in two of its regions |
| `RegionTables.DmaPort.TzDmaMpuConfig` | examples/minimal-tz/secure/tz_config.c:96-123 | The DMA-MPU table, the loop over regions 3 to 7 included |
| `RegionTables.TzDmaMeaning` | examples/minimal-tz/secure/tz_config.c:96-123 | Non-Secure set of the DMA at every address |
| `RegionTables.TzMirror` | examples/minimal-tz/secure/tz_config.c:85-123 | The two agree at an address iff it is outside 0x20080000-0x3FFFFFFF; inside, only the DMA sees Non-Secure memory |
| `SecureService.Gate.SecureGetCounter` | examples/minimal-tz/secure/secure_service.c:34-38 | Returns the old counter plus one modulo 2^32; the counter reads that afterwards, and nothing outside its four bytes changes |
| `SecureService.Gate.SecretKeyedTransform` | examples/minimal-tz/secure/secret.c:32-37 | out[i] is the old in[i] xor s_key[i % 16] for every i below len and the rest of out is kept, for any two buffers, one and the same included |
| `SecureService.Gate.SecureSign` | examples/minimal-tz/secure/secure_service.c:48-80 | For any len and any overlap of challenge and out: the return code, and memory the signed copy of the old challenge on 0 and untouched on -1, -2 and -3, as the next rows say from the arguments alone |
| `SecureService.SignCodeIs` | examples/minimal-tz/secure/secure_service.c:51-64 | Under the table of `tz_sau_config` and an MPU without overlaps: -1 iff len is 0 or over 256; else -2 iff challenge wraps, leaves its Non-Secure block or MPU region, or may not be read by the caller; else -3 iff the same holds of out and writing; else 0 |
| `SecureService.SignWithoutMpu` | examples/minimal-tz/secure/secure_service.c:51-79 | A caller without an MPU gets 0 for every 1 to 256 bytes within Non-Secure blocks |
| `SecureService.SignBytes` | examples/minimal-tz/secure/secure_service.c:69-79 | On 0 out byte i is the old challenge byte i with each bit flipped where byte i % 16 of the key has a one; every other byte stays, and on any other code all of memory |
| `SecureService.SignStaysNonSecure` | examples/minimal-tz/secure/secure_service.c:55-77 | Under the table of `tz_sau_config`, every byte an accepted call reads or writes through its pointers is Non-Secure: neither Secure nor callable |
| `SecureService.SignPermits` | examples/minimal-tz/secure/secure_service.c:55-77 | As far as the caller's own MPU goes it may read every byte of an accepted challenge and write every byte of out, a privileged caller iff no read-only region reaches into out |
| `SecureService.SignKeeps` | examples/minimal-tz/secure/secure_service.c:48-80 | So no call changes a Secure or callable byte or the counter |
| `SecureService.RunKeepsSecure` | examples/minimal-tz/secure/secure_service.c:34-80 | Every interleaving of service calls, Non-Secure stores and Non-Secure DMA, with the Non-Secure MPU and privilege changing freely in between: the key is constant, the counter is its start value plus the number of `secure_get_counter` calls modulo 2^32, and no other Secure or callable byte changes -- but, if the DMA took part, the veneers and 0x20080000-0x3FFFFFFF |
| `SecureService.DmaReach` | examples/minimal-tz/secure/tz_config.c:96-123 | Of the memory the CPU guards, the DMA-MPU opens the veneers and that gap and nothing else: not the Secure RAM with key and counter |
| `SecureService.DmaReachesIff` | examples/minimal-tz/secure/tz_config.c:85-123 | A Non-Secure DMA store can change a guarded byte iff it lies there |
| `SecureService.SignTwice` | examples/minimal-tz/secure/secure_service.c:48-80 | Signing in place twice restores the memory, accepted or rejected |
| `SecureService.SiblingsAgree` | examples/minimal-tz/secure/secure_service.c:69-77 | On equal bytes and equal keys, a buffer both guards accept ends with the same bytes after `svc_sign` and after `secure_sign` in place |

## Left out

- Harts.Hart.SvcSign: `g_prot.key` and the buffer are bytes of one memory; volatile ordering and the caches are not modelled.
- Harts.Hart.TrapDispatch: the compiled function keeps its locals in registers; its own stack frame below the saved registers is not in the memory model, so what a signed buffer aimed there does to it is not either (premise of `RunKeeps`).
- Boot.BootToUser: `main`'s code address for the self-test load is a parameter that shares no byte with the data the monitor writes; M-mode code itself is immutable and not in memory.
- Noninterference.RunsAlike: starts at the drop; before it `main` copies the secret into the mailbox, where U-mode may read it.
- AccessCtrl.SuccessCertifies: needs registers that keep to themselves; without that the read-backs certify only the moments they were made.
- AccessCtrl.EightBitMeets: LOCK is seen from Core0; that its other bits shut out the DMA and core 1 is not modelled.
- SecureService.RunKeepsSecure: the DMA as a writer; what it reads is bounded by `DmaReach` and not followed further. Stores to flash change it like any other memory.
- TfmHal.Hal.SetUpStaticBoundaries: what the memory attributes mean (`ARM_MPU_SetMemAttr`) has no part in access; `dma_security_config` always reports success, so its error branch is left out.
- TfmHal.Hal.BindBoundary: the asset array, platform data and allow-list are values; the pointer casts are not modelled. Memory protection is on, and isolation level 1 is the case where every partition is privileged.
- RegionTables.SauPort.SauAndIdauCfg: the SAU regions the code does not program are taken as disabled in the meaning lemmas.
- SecureService.Gate.SecureSign: bounce buffers are fresh arrays, so the Secure stack is not part of memory.
- Memory on the hart and behind the gate is a sequence reassigned on every store, not an array; aliasing between C pointers is aliasing of addresses in it.
- PMP entries from 2 on are off; the physical address is 32 bits wide; x0 is not hard-wired to zero, which gives U-mode one register more.
- The A extension, vectors and misaligned accesses done in hardware: U-mode loads and stores are naturally aligned, others trap.
- Interrupts, the second core, AIRCR routing, the IDAU, bootrom regions, barriers and cache attributes.
- The scripted demo programs and mailbox values beyond what `main` writes: arbitrary programs take their place.
- Secrecy of the XOR key: signing chosen bytes reveals it by design, so no such claim is made.
- `launch_nonsecure`, `ns_reset` and the fault snapshot of minimal-tz: straight copies into fixed places.
- The DMA channel SECCFG loop in `dma_security_config`: sixteen equal writes.
- `flash_layout.h`, `region_defs.h`, linker scripts: their values are parameters, with alignment and order as premises.
- UART, printf, build files, OpenOCD and the result-reading script.
