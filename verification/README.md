# Smartplug mirroring core, modelled in Dafny

This project models the core of a small suite of TP-Link smartplug tools and
proves properties of that model:

- **The wire codec.** `encrypt` writes a 4-byte big-endian length prefix. It
  then runs the text through an XOR chain seeded with 171, where the key
  becomes each *output* byte. `decrypt` runs the reverse chain, where the key
  becomes each *input* byte.
- **The precomputed command frames** (`COMMANDS`).
- **The time-of-day `Scheduler`**: `is_active` and
  `seconds_until_next_active`.
- **The `PlugTracker`**, which mirrors a leader plug's relay state onto a
  follower plug. This covers `tick` over the one mutable field
  `prev_state`, and one pass of `run`, including the reset of `prev_state`
  after an out-of-hours sleep.
- **The two one-shot tools.** `plug_blink.py` has its own copy of the codec,
  the `set_relay_state` command text, the reply handling of `_send_command`,
  and the blink/restore sequence. `plug_toggle.py` has its own copy of the
  codec, its `COMMANDS` table and the on/off decision.

The model is split into modules:

| Module | File | Contents |
|---|---|---|
| `Wrappers` | `wrappers.dfy` | `Option` |
| `Octets` | `octets.dfy` | bytes as `bv8`, and the integer/character conversion facts |
| `Codec` | `codec.dfy` | the codec: pure chain functions `Cipher`/`Decipher`, the frame layout, the imperative `Encrypt`/`Decrypt` loops proved equal to them, and the command table |
| `Scheduling` | `scheduler.dfy` | the scheduler |
| `Tracker` | `tracker.dfy` | the `PlugTracker` class, the pure `Step` function that specifies `tick`, and lemmas over runs of ticks |
| `Blink` | `blink.dfy` | `plug_blink.py` |
| `Toggle` | `toggle.dfy` | `plug_toggle.py` |

Modelling choices:

- **Device calls are inputs.** A leader read yields a relay state, a socket
  error (caught by `tick`) or another error (a malformed reply, which escapes
  `tick`). A follower write either goes through or fails with a socket
  error. `PlugTracker` records every `set_relay_state` call on the follower
  in a ghost trace, `followerWrites`.
- **Times of day are counted in microseconds**, the resolution of Python's
  `datetime.time`. `seconds_until_next_active` truncates the wait to whole
  seconds, as `int()` does with the positive `total_seconds()` value.
- **The `float('inf')` start value of the minimum** is replaced by the flag
  `found` that the source keeps beside it.
- **A leader value outside {0, 1}** makes `COMMANDS['state'][state]` raise
  KeyError. This happens inside `set_relay_state`, after the connection to
  the follower is open. The model therefore makes such a tick end with an
  escaping error and leave `prev_state` unchanged. If that connection fails
  first, the socket error is caught and `prev_state` takes the new value, as
  for any other failed write.

## Model

| member | source | states |
|---|---|---|
| Codec.CipherAt | plug_tracker.py:37-42 | Ciphertext byte i is plaintext byte i XOR the previous ciphertext byte, and the seed 171 for i = 0. |
| Codec.DecipherAt | plug_tracker.py:47-53 | Decrypted byte i is ciphertext byte i XOR the key. Before byte i the key is ciphertext byte i-1, or the seed for i = 0. |
| Codec.DecipherCipher | plug_tracker.py:35-54 | For any key, deciphering the ciphertext gives the plaintext bytes back: both chains see the ciphertext as their key sequence. |
| Codec.CipherDecipher | plug_tracker.py:35-54 | Conversely, enciphering a deciphered stream gives the stream back, so the chain is a bijection on byte strings. |
| Codec.TextOfBytes | plug_tracker.py:40-53 | `chr(ord(c)) == c` for every character of a string whose characters are all below 256. |
| Codec.BigEndianRoundTrip | plug_tracker.py:38 | Every length below 2^32 packed by `pack('>I')` reads back as that length. |
| Codec.Payload | plug_tracker.py:87 | `data[4:]`: the bytes after the prefix, and empty when there are fewer than four bytes. |
| Codec.FrameLayout | plug_tracker.py:35-43 | `encrypt(s)` has 4 + \|s\| bytes. Its prefix reads back as \|s\|. Frame byte 4+i is character i XOR the frame byte before it, or 171 for i = 0. |
| Codec.RoundTrip | plug_tracker.py:35-54 | `decrypt(encrypt(s)[4:]) == s` for every string whose characters are below 256 and whose length is below 2^32, including the empty string. |
| Codec.Encrypt | plug_tracker.py:35-43 | The accumulator loop returns exactly the frame: the prefix followed by the XOR chain of the code points. |
| Codec.Decrypt | plug_tracker.py:46-54 | The accumulator loop returns exactly the inverse chain of its input. |
| Codec.StateText | plug_tracker.py:57-61 | The state table has an entry exactly for states 0 and 1. Both texts are encodable. |
| Codec.StateCommand | plug_tracker.py:57-61 | `COMMANDS['state'][state]` is present exactly for 0 and 1. Any other state is a KeyError. |
| Codec.CommandsDecode | plug_tracker.py:57-61 | Each state frame decodes back to its command text, and its prefix is the length of that text. |
| Codec.SysinfoDecodes | plug_tracker.py:62 | The `sysinfo` frame decodes back to `{"system":{"get_sysinfo":null}}`. |
| Scheduling.IsActive | plug_tracker.py:111-123 | True iff no window was given, or some window contains t. A window with start ≤ end contains t when start ≤ t ≤ end. A window with start > end contains t when t ≥ start or t ≤ end. |
| Scheduling.ActiveAtStart | plug_tracker.py:116-122 | Every window contains its own start, so the schedule is active at each window start. |
| Scheduling.ActiveOrderIndependent | plug_tracker.py:116-123 | Reordering the windows (any permutation) never changes the answer of `is_active`. |
| Scheduling.Until | plug_tracker.py:137-144 | The forward distance to a window start is in (0, one day]. Adding it to now lands on that start. |
| Scheduling.UntilLeast | plug_tracker.py:137-144 | No smaller positive distance from now lands on that start. |
| Scheduling.EarliestWait | plug_tracker.py:133-147 | The minimum over windows of the forward distance to their start: no larger than any window's distance, and equal to one of them. |
| Scheduling.SecondsUntil | plug_tracker.py:125-154 | 0 with no windows. Otherwise the earliest wait in whole seconds, truncated, which lies in [0, 86400]. |
| Scheduling.SecondsUntilNextActive | plug_tracker.py:125-154 | The loop keeps the least wait seen and returns exactly `SecondsUntil`. |
| Scheduling.WholeSecondWait | plug_tracker.py:144-154 | With whole-second times the wait is exact, and between 1 and 86400 seconds. |
| Scheduling.WakeAtWindowStart | plug_tracker.py:135-147 | Sleeping the returned wait from a whole-second time lands on some window's start, where `is_active` holds. |
| Scheduling.NoStartSkipped | plug_tracker.py:135-147 | Before the earliest wait has passed, no window start is reached. |
| Scheduling.ActiveExamples | plug_tracker_test.py:16-39 | The `is_active` cases of the tests: always active with no windows, inclusive bounds, and two windows. |
| Scheduling.WaitExamples | plug_tracker_test.py:41-67 | The waits 3600, 72000 and 28800 seconds of the tests. |
| Tracker.Step | plug_tracker.py:191-207 | A tick attempts at most one follower write. It attempts one exactly when a state L was read that differs from a known `prev_state`, and the write is of L. A read error changes nothing. A tick that returns after reading L leaves `prev_state == L`, even when the write failed. A tick raises exactly on a non-socket read error, or on a write of a state outside {0, 1} whose connection succeeded, and then keeps `prev_state`. |
| Tracker.PlugTracker.constructor | plug_tracker.py:160-164 | A new tracker starts with `prev_state == -1` (Unknown) and has made no follower writes. |
| Tracker.PlugTracker.Tick | plug_tracker.py:191-207 | The method updates `prev_state` and the trace of follower writes as `Step` prescribes, and reports whether an exception escaped. |
| Tracker.PlugTracker.RunStep | plug_tracker.py:166-188 | Outside the schedule: sleeps the computed wait, resets `prev_state` to Unknown and writes nothing. Inside: performs one tick and sleeps 1 s, or 5 s then 1 s after an escaped exception. |
| Tracker.MirrorsChanges | plug_tracker.py:191-207 | From a fresh or just-woken tracker, with reads that yield 0/1 or socket errors, the follower is asked for exactly the leader states that differ from the previous observation, in order. Failed writes count too. The tracker ends up remembering the last observed state. |
| Tracker.MirrorStep | plug_tracker.py:191-207 | One such tick preserves that correspondence. |
| Tracker.TickScenario | plug_tracker_test.py:88-103 | Starting from Unknown, the first read of 0 writes nothing. A repeated 0 writes nothing. A change to 1 writes 1. |
| Blink.Encrypt | plug_blink.py:28-35 | `SmartPlug.encrypt` computes the same frame as plug_tracker's `encrypt`, length prefix included. |
| Blink.Decrypt | plug_blink.py:38-45 | `SmartPlug.decrypt` computes the same text as plug_tracker's `decrypt`. |
| Blink.Digits | plug_blink.py:65 | `str` of a natural number is a non-empty string of decimal digits. |
| Blink.DigitsRoundTrip | plug_blink.py:65 | Those digits read back as the number. |
| Blink.RelayCommandMatchesTracker | plug_blink.py:64-66 | For state 0 or 1, `set_relay_state` builds exactly `{"system":{"set_relay_state":{"state":<state>}}}`, and its frame equals plug_tracker's `COMMANDS['state'][state]`. |
| Blink.SendCommand | plug_blink.py:47-54 | Sends the frame of the command, and returns `decrypt` of the received bytes with their first four dropped (empty for at most four bytes). With `Codec.RoundTrip`, a response equal to `encrypt(r)` therefore yields r. |
| Blink.FlipLow | plug_blink.py:95 | `state ^= 1` always changes the state, maps 0 to 1 and 1 to 0, and only touches the lowest bit. |
| Blink.FlipLowIsXor | plug_blink.py:95 | On byte values, the flip is the bitwise XOR with 1. |
| Blink.BlinkWrites | plug_blink.py:91-104 | No writes when blinks ≤ 0, otherwise blinks + blinks mod 2 writes. Write i (i < blinks) is the flipped original for even i and the original for odd i. A final restoring write happens exactly when blinks is odd. The last write is the original. Consecutive writes always differ. |
| Toggle.Encrypt | plug_toggle.py:13-20 | This copy of `encrypt` computes the same frame as plug_tracker's. |
| Toggle.Decrypt | plug_toggle.py:23-30 | This copy of `decrypt` computes the same text as plug_tracker's. |
| Toggle.BuildCommands | plug_toggle.py:56-62 | The `COMMANDS` table built here is entry for entry plug_tracker's table. |
| Toggle.Decide | plug_toggle.py:82-87 | IndexError (no decision) for a queried state outside [-2, 2). Otherwise: at most one write. Exactly one write of 1 when `--on` is set and the state is 0. Exactly one write of 0 when `--off` is set and the state is 1. No write in every other case. Any state written is 0 or 1 and differs from the queried state. |

## Left out

- Sockets are not modelled: `_connect`, `settimeout`, `send`, `recv`, `close` and `setup_socket`. Each device call is an input outcome instead: a leader read, a follower write, or the received bytes.
- `recv(2048)` truncates longer replies. The model takes the received bytes as given.
- `json.loads` and the nested `relay_state` lookup are not modelled. The relay state read is an input integer. A JSON value that is not an integer (a boolean, `null`) is not modelled.
- The `while True` loop of `run`, `time.sleep`, `datetime.now` and logging are not modelled. `PlugTracker.RunStep` models one pass: it takes the time of day as a parameter and returns the sleeps instead of blocking.
- Floating point in `seconds_until_next_active` is not modelled. The wait is exact integer microseconds, truncated to seconds. `datetime.combine` of today or tomorrow is modelled as adding one day of 86400 s, since naive datetimes have no daylight-saving shifts.
- `parse_time_range`, `main`, argparse, `setup_logging`, the `sys.path` fallback and the module-level script of plug_toggle.py beyond its decision rule are not part of this model.
- `SmartPlug.__init__`, `get_relay_state` and the blink delay of plug_blink.py are not modelled beyond what is listed above.
- Codec.Encrypt: requires every character below 256 and a length below 2^32, where Python raises ValueError or `struct.error`. The error path is not modelled. The same holds for Blink.Encrypt and Toggle.Encrypt.
- Blink.BlinkWrites: gives the writes of a run in which no call fails. Any exception ends `main` through `sys.exit(1)`, so the writes actually made are then a prefix of these.
- Scheduling.WakeAtWindowStart: stated for whole-second times only, where the truncated sleep is exact. With sub-second times the sleep ends up to a second before the window start.
- Tracker.MirrorsChanges: stated for reads that yield 0, 1 or a socket error. Other reads raise, and are covered one tick at a time by Tracker.Step.
