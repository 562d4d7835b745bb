# AW9106 LED driver: register programming, modelled and proved in Dafny

This project models the register-programming core of the Linux driver for
the Awinic AW9106, a six-channel LED driver on I2C (`leds-aw9106.c`). It
covers four parts:

- the retrying byte transport;
- the chip-identity check;
- the effect programmer, which puts the chip into static-brightness mode or
  breathing (blink) mode;
- the sysfs attributes `reg`, `hwen` and `blink` once their input has been
  parsed, and the reset line.

The chip is a 256-byte register file behind an I2C adapter. The adapter is
an oracle (`Bus.Oracle`) that answers the n-th transfer attempt the driver
makes, either with a byte or with a negative error code. The driver instance
(`struct aw9106`) is the class `Driver.Aw9106`. It holds:

- the register file;
- the number of attempts made so far;
- a log of every logical transfer, called the write trace;
- the reset-line events;
- `chipid`, the stored brightness and the pending-work flag.

Its invariant `Valid` says that replaying the log against the oracle with
`Chip.Run` gives back the register file and the attempt count. Every
operation is proved against a specification function:

- `Bus.Retry` for one retrying transfer;
- `Identity.Identify` for the identity check;
- `Effects.StaticProgram` and `Effects.BlinkProgram` for the effect writes;
- `Dump.DumpPairs` for the register dump;
- the event functions of `Reset` for the reset line.

The properties the driver promises are proved about those functions.

Modules:

- `Bus`: replies, the per-transfer retry loop (`Transfer`) and its
  specification.
- `Registers`: the register map, the access table, byte truncation and
  timing packing.
- `Chip`: the transfer log and its replay.
- `Effects`: the write programs.
- `Identity`: the chip-identity check.
- `Dump`: the `reg` attribute's dump.
- `Reset`: the reset-line events.
- `Maybe`: an option type.
- `Driver`: the driver class.

Four behaviours of the code are easy to misread, and the model keeps them
as written:

- The timing fields are not masked to 3 bits. `(fall << 3) | rise` is
  computed on C ints and truncated to a byte, so an out-of-range field
  spills into its neighbour (`Registers.PackSpills`).
- `hwen` resets the chip only for a value of exactly 1. Any other parsed
  value, 2 for instance, powers it off.
- `blink` hands its number to an `unsigned char` parameter. 256
  therefore switches blinking off (`Effects.BlinkArgumentWraps`).
- `aw9106_hw_reset` and `aw9106_hw_off` return 0 even when the reset line
  is not valid.

## Model

| member | source | states |
|---|---|---|
| Bus.Retry | leds-aw9106.c:119-158 | a retrying transfer makes between one and AW_I2C_RETRIES attempts and returns the reply of its last attempt; a failed outcome has used every attempt |
| Bus.RetryStopsAtSuccess | leds-aw9106.c:125-134 | every attempt before the last one failed: the loop stops at the first success |
| Bus.RetryFirstSuccess | leds-aw9106.c:125-134 | when attempt k is the first success, the transfer returns that reply after k + 1 attempts |
| Bus.RetryAllFail | leds-aw9106.c:125-136 | when every attempt fails, the transfer returns the last error after AW_I2C_RETRIES attempts |
| Bus.Transfer | leds-aw9106.c:122-136 | the retry loop shared by aw9106_i2c_write and aw9106_i2c_read (ret starts at -1, cnt counts to AW_I2C_RETRIES, break on success) computes exactly the outcome Retry specifies |
| Bus.FifthAttemptCounts | leds-aw9106.c:41 | four failures followed by a success count as a success: the budget includes the fifth attempt |
| Registers.RegAccess | leds-aw9106.c:82-111 | the access table, entry by entry (unlisted entries have no access): the read-only registers are exactly INPUT_P0, INPUT_P1 and ID, the write-only ones exactly DIM00..DIM05 and SWRST |
| Registers.ReadBitOfTable | leds-aw9106.c:82-111 | an address is readable exactly when aw9106_reg_access gives it REG_RD_ACCESS; the table is spelled out entry by entry in RegAccess |
| Registers.WriteBitOfTable | leds-aw9106.c:82-111 | an address is writable exactly when aw9106_reg_access gives it REG_WR_ACCESS |
| Registers.ReadableSplit | leds-aw9106.c:372-374 | walking the table upwards and collecting the readable entries below i, then those from i on, yields the whole dump order |
| Registers.DumpedRegisters | leds-aw9106.c:82-111 | the dump visits exactly INPUT_P0..INT_P1 and ID..DLY5_BREATH, in ascending order: 21 registers, never a DIM register or SWRST |
| Registers.ByteOf | leds-aw9106.c:358 | truncation to unsigned char is the identity on 0..255 |
| Registers.Pack | leds-aw9106.c:230-233 | the low three bits of the timing byte are those of the low field; when the low field is in 0..7, the high five bits are the low five bits of the high field |
| Registers.PackDecodes | leds-aw9106.c:230-233 | for 3-bit fields the FADE_TIME/FULL_TIME byte decodes back to both fields |
| Registers.PackSpills | leds-aw9106.c:230-231 | the fields are not masked: a low field of 8 produces the same byte as a high field of 1 |
| Registers.BlinkCtrl | leds-aw9106.c:240-241 | the CTRL byte always has the blink-enable bit set, and its low seven bits are those of imax |
| Registers.BlinkCtrlDecodes | leds-aw9106.c:240-241 | for imax below 128 the CTRL byte has the blink-enable bit set and imax in its low seven bits |
| Chip.Step | leds-aw9106.c:119-158 | one logical transfer uses one to five attempts; a read changes no register; a write changes only its own register, and only when its last attempt succeeded |
| Chip.RunAttempts | leds-aw9106.c:125-134 | a trace of n logical transfers consumes between n and 5n bus attempts |
| Chip.RunOutsideTargets | leds-aw9106.c:119-137 | replaying a program leaves every register it does not write as it was, whatever the bus answers |
| Chip.RunHealthy | leds-aw9106.c:119-137 | on a bus that never fails, every write of a program lands, in order |
| Effects.Clamp | leds-aw9106.c:186-188 | the programmed brightness is min(brightness, max_brightness): the stored value when in range, max_brightness when above it |
| Effects.StaticProgram | leds-aw9106.c:190-200 | brightness_work's writes: ten in all, positions 4..9 being DIM00..DIM05 in order with the same value |
| Effects.BlinkProgram | leds-aw9106.c:221-254 | led_blink's writes: fourteen when the argument is nonzero, ending with the CTRL byte; ten when it is zero |
| Effects.StaticProgramShape | leds-aw9106.c:190-200 | brightness_work issues ten writes, all to writable registers, and every channel register receives the same value |
| Effects.StaticProgramTargets | leds-aw9106.c:190-200 | brightness_work writes CTRL, both work-mode registers, EN_BREATH and DIM00..DIM05, and nothing else |
| Effects.BlinkOnShape | leds-aw9106.c:221-241 | a nonzero blink argument gives fourteen writes to writable registers, the channels in lock-step, the timing bytes at positions 5 and 6, and CTRL written once, last |
| Effects.BlinkOffIsStaticZero | leds-aw9106.c:242-254 | switching blinking off writes exactly what static brightness 0 writes, in the same order |
| Effects.BlinkOffTargets | leds-aw9106.c:242-254 | switching blinking off touches only CTRL, WORK_MODE_P0/P1, EN_BREATH and DIM00..DIM05 |
| Effects.BlinkTimingDecodes | leds-aw9106.c:230-241 | with in-range fields, the programmed FADE_TIME, FULL_TIME and CTRL bytes decode back to the configured timing and imax |
| Effects.BlinkExample | leds-aw9106.c:230-241 | rise 2, on 3, fall 1, off 5 and imax 3 program FADE_TIME 0x0a, FULL_TIME 0x2b and CTRL 0x83 |
| Effects.BlinkArgumentWraps | leds-aw9106.c:419-420 | the parsed blink number is truncated to a byte: 256 programs the static-zero writes and 257 the blink writes, as 1 does |
| Identity.Identify | leds-aw9106.c:317-340 | the check makes at most AW_READ_CHIPID_RETRIES logical reads of REG_ID, and at least one |
| Identity.Verdict | leds-aw9106.c:318-340 | the result after the last REG_ID read is always 0, -EIO or -EINVAL |
| Identity.IdentifyDecides | leds-aw9106.c:317-340 | the check reads at most five replies; every one but the last is a good read of another identity; it stops before five only at a failed read or AW9106_ID; the last reply gives the result |
| Identity.DecidedReturns | leds-aw9106.c:317-340 | for a decided check: 0 exactly when the last reply is AW9106_ID, -EIO exactly when it is a transport failure, -EINVAL exactly when all reads were made and all were mismatches |
| Identity.IdentifySucceedsIff | leds-aw9106.c:317-340 | the check returns 0 exactly when, among five consecutive REG_ID reads, one returns 0x23 and every earlier one is a good read of a different value |
| Dump.DumpPairs | leds-aw9106.c:371-377 | the dump of a walk: one (register, reg_val) pair per address visited, what each holds being stated by DumpPairsNames and DumpPairsReport |
| Dump.DumpPairsNames | leds-aw9106.c:372-376 | the dump has one line per readable register, naming the registers in table order |
| Dump.DumpPairsReport | leds-aw9106.c:371-376 | each value in the dump is the byte its read returned or, when that read failed after all retries, the value reported before it (0 before the first) |
| Dump.DumpOnHealthyBus | leds-aw9106.c:372-376 | on a bus that never fails, every line reports the byte its own read returned |
| Reset.ResetEvents | leds-aw9106.c:282-289 | a valid line, and only a valid line, gets four events: low first, high third; no other line is driven |
| Reset.OffEvents | leds-aw9106.c:297-302 | a valid line, and only a valid line, gets events, and it is only ever driven low |
| Reset.HwenEvents | leds-aw9106.c:389-395 | only a valid line is driven, only the configured line, and any value other than 1 never drives it high |
| Reset.HwenFinalLevel | leds-aw9106.c:389-395 | after `hwen`, a valid reset line is left high for exactly 1 and low for any other value; an invalid line is never driven |
| Driver.WriteStatus | leds-aw9106.c:126-136 | aw9106_i2c_write's result is non-negative exactly when an attempt succeeded |
| Driver.Aw9106.I2cWrite | leds-aw9106.c:119-137 | one logical write: the trace gains the write, the attempts advance as Retry says, the result is 0 or the last error, and the register takes the byte only on success |
| Driver.Aw9106.I2cRead | leds-aw9106.c:139-158 | one logical read: returns the last reply, stores the byte only on success, leaves the register file alone |
| Driver.Aw9106.I2cWriteBits | leds-aw9106.c:160-171 | reads, keeps the mask bits of the byte read (or the uninitialised byte when the read failed), ORs in the data, writes back, and returns 0 |
| Driver.Aw9106.WriteAll | leds-aw9106.c:190-195 | the straight-line writes of the effect functions: each write of the program is issued once, in order, whatever the ones before it returned |
| Driver.Aw9106.WriteDims | leds-aw9106.c:197-200 | the channel loop issues DIM00..DIM05 in order, each with the same value |
| Driver.Aw9106.BrightnessWork | leds-aw9106.c:179-201 | clamps the stored brightness in place and issues the static program with it; registers outside its targets are unchanged; on a healthy bus they hold the program's values |
| Driver.Aw9106.SetBrightness | leds-aw9106.c:203-211 | stores the value unclamped and marks the work pending |
| Driver.Aw9106.RunPendingWork | leds-aw9106.c:210 | the work runs once if scheduled; otherwise nothing changes |
| Driver.Aw9106.SetTwiceThenRun | leds-aw9106.c:203-211 | two updates before the work runs give one run with the later value, clamped |
| Driver.Aw9106.LedBlink | leds-aw9106.c:213-255 | clamps in place and issues BlinkProgram for the argument; registers outside its targets are unchanged; on a healthy bus they hold the program's values |
| Driver.Aw9106.BlinkOn | leds-aw9106.c:221-241 | the enabled branch issues the blink writes with CTRL last |
| Driver.Aw9106.BlinkOff | leds-aw9106.c:242-254 | the disabled branch issues the static writes with every channel at 0 |
| Driver.Aw9106.BlinkStore | leds-aw9106.c:412-423 | truncates the parsed number to a byte, runs led_blink with it and returns the length |
| Driver.Aw9106.ReadChipId | leds-aw9106.c:311-341 | returns what Identify decides, logs exactly its REG_ID reads, sets chipid to 0x23 only on success and leaves it unchanged otherwise |
| Driver.Aw9106.RegStore | leds-aw9106.c:349-362 | with two parsed numbers, writes the low byte of the second to the register named by the low byte of the first, with no access check; returns count either way |
| Driver.Aw9106.RegShow | leds-aw9106.c:364-379 | reads every readable register in table order, exactly once each, and returns the DumpPairs dump starting from reg_val = 0 |
| Driver.Aw9106.ShowEntry | leds-aw9106.c:373-376 | one loop iteration: a readable entry is read and reported with the resulting reg_val, any other entry is skipped |
| Driver.Aw9106.HwReset | leds-aw9106.c:278-291 | a valid line is driven low, 1 ms, high, 1 ms; an invalid line is not touched; returns 0 |
| Driver.Aw9106.HwOff | leds-aw9106.c:293-304 | a valid line is driven low, 1 ms; an invalid line is not touched; returns 0 |
| Driver.Aw9106.HwenStore | leds-aw9106.c:381-398 | a parsed 1 resets, any other parsed value powers off, nothing parsed does nothing; returns count |

## Left out

- The SMBus primitives (`i2c_smbus_write_byte_data`, `i2c_smbus_read_byte_data`) are the oracle `bus`. A successful read returns the oracle's byte. The register file records the driver's successful writes and is not consulted for reads.
- `msleep` between retries and between identity reads is not modelled. The reset line's 1 ms sleeps appear as `Sleep` events.
- Concurrency is not modelled: the workqueue, and sysfs calls racing with deferred brightness work. Scheduling is the single `pending` flag, and `RunPendingWork` stands for the worker running.
- Parsing is not modelled. `sscanf` in the `reg`, `hwen` and `blink` attributes is left out: `RegStore` and `HwenStore` take the parsed result as an option value, and `BlinkStore` takes the number the buffer holds.
- The text produced by `aw9106_reg_show`, the `snprintf` formatting and the PAGE_SIZE bound are not modelled. The dump is the sequence of (register, value) pairs.
- `aw9106_hwen_show` and `aw9106_blink_show` are not modelled, because they only format text.
- Device-tree parsing, probe/remove, LED class registration, sysfs group creation and module init/exit are not modelled: they are kernel plumbing. Probe also ignores the return value of `aw9106_parse_led_cdev` (leds-aw9106.c:605-606); that is not modelled.
- The `aw9106 != NULL` test in the reset functions is not modelled: a class instance always exists.
- `gpio_is_valid` is modelled as a non-negative line number.
- Driver.Aw9106.I2cWriteBits: the byte left in `reg_val` when the read fails is uninitialised in C. It is the parameter `stale`.
- Driver.Aw9106.BlinkStore: when `sscanf` fails, `databuf[0]` is uninitialised in C. That case is covered by `value` being any integer.
- Driver.Aw9106.I2cRead: it returns the C return value as a `Reply` rather than one int that is either a byte or a negative code.
- Uses of `cdev.brightness` as an `unsigned char` argument are modelled with `ByteOf`. The `enum led_brightness` argument of `aw9106_set_brightness` is a `nat`.
