# Relay layer of a libretro frontend, in Dafny

This project models the relay layer between a libretro core and the SDL
host in `src/main.rs` and `src/audio_subsystem.rs`. It covers three shared
tables and the translation of SDL events into one of them:

- **Audio sample queue** (`AudioSubsystem`). `AUDIO_BUFFER` is modelled as
  the class `AudioBuffer`, with a `seq<int16>` field and a ghost history of
  every sample pushed and pulled. `retro_audio_sample_batch` appends
  `frames * 2` interleaved stereo samples. A null pointer appends nothing
  and returns 0. `AudioHandler::callback` copies `min(out.len, queue.len)`
  samples into the device buffer and drains them. The pure functions
  `Batch` and `Drain` specify the two methods. `Replay` runs any
  interleaving of the two and is proved first-in first-out.
- **Frame slot** (`Video`). `FRAMEBUFFER` is the class `FrameSlot`, which
  holds an `Option<Framebuffer>`. `retro_video_refresh` ignores a null
  pointer. Otherwise it replaces the slot with the first `pitch * height`
  bytes plus the width and the height. `retro_environment` answers false to
  every command and never writes the payload.
- **Input table** (`Input`). `INPUT_STATE` is the class `InputTable`, with
  a `map` field keyed by `(port, device, index, id)`. `retro_input_state`
  reads 0 for a key that was never set. `sdl_to_snes` maps SDL button
  indices to libretro joypad ids. The hat table turns each of the nine hat
  positions into levels for the up, down, left and right keys (ids 4 to 7).
  `handle_input` folds the events of one pump over the table. A `Quit` or
  an Escape key press records `retro_unload_game` and then `retro_deinit`
  in a ghost call trace, sets a ghost exit status of 0, and stops. No later
  event is applied.

Raw pointers are `Option<seq<_>>` (`None` is null). The safety demand of
`from_raw_parts` becomes a `requires` saying the memory covers the length
read. Rust's `i16`, `u8` and `u32` are bounded subset types of `int`.

Where the code and its design description differ, the model follows the code:

- `Framebuffer` has no stride field. The pitch is used to size the copy and
  is then dropped.
- Button indices 8 and up pass through `sdl_to_snes` unchanged. But
  `handle_input` only calls it for indices below 8, so the passthrough never
  reaches the table (`ApplyButton` leaves the table unchanged for them).
- `src/main.rs` registers its own `retro_audio_sample_batch`, which always
  returns 0 (`src/main.rs:99-101`), and never declares `mod audio_subsystem`.
  The queue modelled here is the one in `src/audio_subsystem.rs`.

## Model

| member | source | states |
|---|---|---|
| AudioSubsystem.Appended | src/audio_subsystem.rs:18-26 | a null pointer contributes no samples; otherwise exactly `frames * 2` samples, the ones at the head of the pointed-to memory, in order |
| AudioSubsystem.Batch | src/audio_subsystem.rs:16-36 | null: queue unchanged and result 0; otherwise result `frames`, old contents kept as a prefix, and the new samples appended at the tail |
| AudioSubsystem.Drain | src/audio_subsystem.rs:41-55 | with `n = min(out.len, queue.len)`: `out[..n]` is the old queue's first `n` samples, `out[n..]` is untouched, and the queue loses exactly its first `n` samples |
| AudioSubsystem.DrainUnderflow | src/audio_subsystem.rs:46-53 | when fewer samples are queued than requested, all are delivered, the queue empties and the unfilled tail of `out` keeps its old contents |
| AudioSubsystem.DrainEmpty | src/audio_subsystem.rs:48-53 | pulling from an empty queue changes neither the buffer nor the queue |
| AudioSubsystem.BatchKeepsOrder | src/audio_subsystem.rs:31-31 | a push keeps the invariant "delivered samples followed by queued samples equal pushed samples" |
| AudioSubsystem.DrainKeepsOrder | src/audio_subsystem.rs:50-52 | a pull keeps the same invariant |
| AudioSubsystem.ReplayIsFifo | src/audio_subsystem.rs:31-52 | for any interleaving of pushes and pulls, all delivered samples followed by the queue equal all pushed samples, with the pushes counted independently of the pulls |
| AudioSubsystem.DeliveredIsPrefix | src/audio_subsystem.rs:31-52 | the samples handed to the device are always a prefix of the samples pushed |
| AudioSubsystem.AudioBuffer.constructor | src/audio_subsystem.rs:12-12 | the queue starts empty, with an empty history |
| AudioSubsystem.AudioBuffer.SampleBatch | src/audio_subsystem.rs:16-36 | the queue and the return value are those of `Batch`; the pushed history grows by exactly the appended samples; the FIFO invariant is kept |
| AudioSubsystem.AudioBuffer.Callback | src/audio_subsystem.rs:41-55 | the device buffer and the queue are those of `Drain`; the pulled history grows by exactly the delivered samples; the FIFO invariant is kept |
| Video.Environment | src/main.rs:37-43 | every command is answered false and the payload is not modified |
| Video.RefreshNullKeepsSlot | src/main.rs:52-54 | a null frame pointer leaves the stored frame unchanged |
| Video.RefreshReplaces | src/main.rs:56-64 | a frame replaces the slot wholesale, whatever it held: `pitch * height` bytes equal to the input's first bytes, with the given width and height |
| Video.RefreshLastWins | src/main.rs:59-64 | of two consecutive frames only the second is stored |
| Video.RefreshExactCopy | src/main.rs:56-64 | a buffer of exactly `pitch * height` bytes is stored byte for byte |
| Video.FrameSlot.constructor | src/main.rs:50-50 | the slot starts empty |
| Video.FrameSlot.VideoRefresh | src/main.rs:51-65 | null leaves the slot; otherwise it holds a frame with the given width and height, as `Refresh` defines |
| Input.LookupAfterSet | src/main.rs:89-93 | a never-set key reads 0, a set key reads the level last stored, and setting one key leaves every other key's level unchanged |
| Input.SdlToSnes | src/main.rs:113-125 | indices 0 to 7 map to the eight non-direction SNES button ids, never to 4 to 7; indices 8 and up map to themselves |
| Input.SdlToSnesInjective | src/main.rs:113-125 | distinct indices 0 to 7 map to distinct ids |
| Input.SdlToSnesOnto | src/main.rs:113-125 | every SNES button id B, Y, SELECT, START, A, X, L, R is the image of some index 0 to 7 |
| Input.HatLevels | src/main.rs:152-211 | each key is 1 exactly when the hat points along it; up/down and left/right are never both 1; Centered presses none, a cardinal state exactly one, a diagonal exactly two |
| Input.ApplyHat | src/main.rs:152-211 | a hat event writes exactly the four direction keys, with the hat's levels, and keeps every other entry |
| Input.HatOverwrites | src/main.rs:152-211 | a hat event erases the effect of any earlier hat event |
| Input.HatIdempotent | src/main.rs:152-211 | applying the same hat event twice equals applying it once |
| Input.ApplyButton | src/main.rs:142-151 | an index below 8 sets its SNES button key to the level and no other key; an index of 8 or more leaves the table unchanged; the direction keys are never changed |
| Input.ApplyEvent | src/main.rs:142-213 | only hat events change the direction keys; events other than button and hat events leave the table unchanged |
| Input.ApplyEventsAppend | src/main.rs:132-215 | without a quit, processing `a + b` equals processing `a` and then `b` |
| Input.QuitDiscardsRest | src/main.rs:134-141 | events after the first quit in a batch never reach the table |
| Input.NonHatKeepsDpad | src/main.rs:142-151 | a batch without hat events leaves the four direction levels unchanged |
| Input.LastHatWins | src/main.rs:152-211 | after a batch without a quit, the direction levels are those of the last hat event |
| Input.InputTable.constructor | src/main.rs:68-71 | the table starts empty, with no core call made and no exit |
| Input.InputTable.State | src/main.rs:89-93 | the stored level for the key, or 0 when the key was never set |
| Input.InputTable.HandleInput | src/main.rs:127-217 | the table becomes `ApplyEvents` of the old table; with a quit in the batch, exactly one unload followed by one deinit is recorded and the exit status is 0; without one, no core call and no exit |

## Left out

- Mutex locking and the audio device's own thread. The model is the sequential meaning of each locked section, with calls made one at a time.
- The SDL window, canvas, streaming texture, scaling and `present` (`src/main.rs:251-286`). These are host graphics I/O. So is the row pitch `fb.width * 4` passed to `texture.update`.
- The event pump, joystick enumeration and opening, and the 16 ms sleep between ticks. Events are an input sequence to `HandleInput`.
- The libretro core itself: `retro_init`, `retro_run`, `retro_load_game`, callback registration, and controller port setup. The core is opaque. Only `retro_unload_game` and `retro_deinit` appear, as entries in the call trace. `exit(0)` is a ghost exit status.
- The frame-by-frame orchestration of `main`, one tick at a time. It needs `retro_run`, which is foreign code.
- `initialize_audio_subsystem` and `SPEC` (32000 Hz, 2 channels, S16LE). These open the playback device.
- The no-op stubs `retro_audio_sample`, `retro_input_poll` and main.rs's own `retro_audio_sample_batch`. They only return 0 or do nothing.
- `src/game_info.rs` is not part of this model. It only wraps a path into an FFI record.
- AudioSubsystem.AudioBuffer.SampleBatch: `frames * 2` is computed without `usize` wrap-around. The `requires` says the pointer covers that many samples, which real memory cannot do once the product wraps.
- Video.FrameSlot.VideoRefresh: `pitch * height` is computed without `usize` wrap-around, for the same reason.
