# Freeze filter state machine

A model of the freeze video filter for OBS (`freeze-filter.c`). This filter holds one captured frame of its upstream source and redraws it instead of the live feed. The model covers the per-instance state (`struct freeze_info`) and every callback that changes it:

- **tick:** accumulates enabled time, releases the freeze automatically after `duration_max` milliseconds, requests a recapture every `refresh_interval` milliseconds, and resets everything while the filter is disabled.
- **geometry check:** tracks the upstream size and frees the capture buffer when that size changes.
- **actions:** the activate, deactivate, show and hide hooks each dispatch their configured action, and the two hotkeys flip the enable flag.
- **render decision:** skip, replay the held frame, or capture then draw.
- **update and create:** the settings update, and creation with all-zero initial state.

Layout:

- `wrappers.dfy`: `Option`, which stands for a pointer that may be null.
- `freeze_spec.dfy`: module `FreezeSpec`. The state as a value (`State`, `Config`, `Action`, `RenderOutcome`), the invariant `Valid`, and each callback as a pure transition whose contract states its meaning.
- `freeze_runs.dfy`: module `FreezeRuns`. Runs of ticks and of mixed host callbacks, with the properties that need induction.
- `freeze_filter.dfy`: module `FreezeFilter`. Class `FreezeInfo` has the fields of `struct freeze_info`. Its methods update those fields in place, as the C functions do, and each is proved to move `Model()` exactly as the matching `FreezeSpec` transition does.

Modelling decisions:

- **Time:** durations are `real` seconds. Thresholds are `nat` milliseconds, as stored in the `uint32_t` fields. The comparisons multiply by 1000 exactly as the source does.
- **Settings:** a settings integer goes into a `uint32_t` field reduced modulo 2^32 (`ToU32`).
- **Host inputs as parameters:**
  - the host's enable flag is the field `enabled`;
  - the upstream target is an `Option` of its width and height;
  - the presence of target and parent at render time, and the outcome of beginning the off-screen pass, are method parameters;
  - the frame time of a tick is a parameter and must be non-negative.

Three behaviours of the code that the model keeps as written:

- **Auto-release timing.** Auto-release uses a strict `>` (freeze-filter.c:234). With a 2000 ms limit and half-second ticks, the filter is still enabled after the fourth tick (exactly 2.0 s) and releases on the fifth. See `FreezeRuns.AutoReleaseScenario`.
- **Failed capture.** A capture whose off-screen pass fails to begin still marks the frame as held (freeze-filter.c:133-154), so the next render replays instead of retrying.
- **Resize.** A size change frees the buffer but leaves `processed_frame` set (freeze-filter.c:54-58). A frame held across a resize is therefore replayed (freeze-filter.c:120-122) with no buffer to draw from, and no recapture happens until a tick invalidates the frame. See `FreezeSpec.ResizeWhileHeldReplaysWithoutBuffer`.

## Model

| member | source | states |
|---|---|---|
| FreezeSpec.ToU32 | freeze-filter.c:85-87 | a settings integer stored in a uint32 field is below 2^32, congruent to the input modulo 2^32, and unchanged when already in range |
| FreezeSpec.HookAction | freeze-filter.c:274-296 | each hook selects its own configured action field |
| FreezeSpec.ApplySettings | freeze-filter.c:82-93 | an update replaces only the configuration; each duration is stored as its uint32 conversion, so in-range values are stored exactly and all fit uint32; hook actions come from the settings; the invariant is kept |
| FreezeSpec.Create | freeze-filter.c:63-70 | a new filter has no buffer, unknown size, invalid target, no held frame and zero timers, keeps the host's enable flag, holds the settings' configuration and satisfies the invariant |
| FreezeSpec.FreeTextures | freeze-filter.c:29-37 | afterwards there is no buffer; nothing else changes; it is a no-op when there is none |
| FreezeSpec.CheckSize | freeze-filter.c:39-61 | target validity is exactly "present with nonzero width and height"; an unusable target returns true and changes only validity; a new usable size is stored, frees the buffer and returns true; the same size returns false and changes only validity; the held-frame flag, enable flag and timers never change |
| FreezeSpec.TimerStep | freeze-filter.c:228-247 | disabled: held frame dropped and both timers zero; enabled: duration grows by t, the filter disables itself exactly when the threshold is exceeded, a refresh (drop held frame, mark at current duration) happens exactly when due and not auto-released, refreshes are at least the interval apart, the held frame is never an interval old after a tick that stays enabled; a tick never enables; geometry, buffer and config unchanged; invariant kept for t >= 0 |
| FreezeSpec.Tick | freeze-filter.c:228-261 | a whole tick has the timer step's effect on the enable flag, held frame and timers, leaves target validity equal to the usability of the current target, stores a new usable size and frees the buffer, otherwise keeps size and buffer, keeps the configuration and the invariant |
| FreezeSpec.DoAction | freeze-filter.c:263-272 | Enable leaves the filter enabled, Disable leaves it disabled, any other action changes nothing; only the enable flag is touched |
| FreezeSpec.OnHook | freeze-filter.c:274-296 | a hook has the effect of its configured action: enabled after Enable, disabled after Disable, nothing changes otherwise |
| FreezeSpec.EnableHotkey | freeze-filter.c:200-213 | returns true exactly when pressed and the filter was disabled, which is exactly when the flag flips; only the flag changes; pressed leaves it enabled |
| FreezeSpec.DisableHotkey | freeze-filter.c:215-226 | returns true exactly when pressed and the filter was enabled, which is exactly when the flag flips; only the flag changes; pressed leaves it disabled |
| FreezeSpec.Render | freeze-filter.c:110-155 | skips exactly when geometry is invalid or target or parent is missing; replays exactly when it can render and a frame is held, drawing from the buffer iff there is one; skip and replay change nothing; a capture creates the buffer and marks the frame held whatever the begin result; a capture only ever happens at a nonzero stored size; invariant kept |
| FreezeSpec.DisabledTickIdempotent | freeze-filter.c:243-247 | a tick repeated while disabled changes nothing further |
| FreezeSpec.FreeTexturesIdempotent | freeze-filter.c:29-37 | freeing the buffer twice equals freeing it once |
| FreezeSpec.DoActionIdempotent | freeze-filter.c:263-272 | repeating an action has no further effect |
| FreezeSpec.HotkeysAgreeWithActions | freeze-filter.c:200-226 | a pressed enable or disable hotkey changes the state exactly as the Enable or Disable action does |
| FreezeSpec.RenderCapturesOnce | freeze-filter.c:120-154 | a render right after a capture never captures again |
| FreezeSpec.ResizeWhileHeldReplaysWithoutBuffer | freeze-filter.c:54-58 | a resize while a frame is held makes the next render replay with no buffer rather than recapture |
| FreezeRuns.ElapsedNonNegative | freeze-filter.c:233 | non-negative tick times add up to a non-negative total |
| FreezeRuns.RunTicksValid | freeze-filter.c:228-261 | every run of ticks with non-negative frame times keeps the invariant and the configuration |
| FreezeRuns.StaysEnabledWithinMax | freeze-filter.c:232-235 | while the accumulated time stays within the threshold an enabled filter stays enabled and its duration is the start plus the sum of the tick times, never below the start |
| FreezeRuns.DisablesOnCrossing | freeze-filter.c:234-235 | the auto-release fires on the tick that takes the accumulated time past the threshold, and not before |
| FreezeRuns.DisabledTail | freeze-filter.c:243-247 | any nonempty run of ticks from a disabled filter ends disabled with no held frame and zero timers |
| FreezeRuns.AutoReleaseScenario | freeze-filter.c:234 | with a 2000 ms limit and half-second ticks the filter is enabled after four ticks and disabled after five |
| FreezeRuns.OnlyTicksInvalidate | freeze-filter.c:240-244 | of all callbacks, only a tick can drop a held frame |
| FreezeRuns.CapturesNeedInvalidation | freeze-filter.c:116-154 | over any mix of ticks, renders, hooks, hotkeys, actions and updates, the captures are at most the ticks that dropped a held frame, plus one if none was held at the start; with no such tick a held frame stays held |
| FreezeRuns.HeldFrameNeverRecaptured | freeze-filter.c:120-154 | across any callbacks whose ticks do not invalidate, a held frame is never recaptured and at most one capture happens |
| FreezeRuns.TickInvalidates | freeze-filter.c:236-247 | a tick event drops a held frame exactly when the filter is disabled or a refresh is due without an auto-release |
| FreezeFilter.FreezeInfo.constructor | freeze-filter.c:63-70 | the object starts in the state Create describes and satisfies the invariant |
| FreezeFilter.FreezeInfo.Update | freeze-filter.c:82-93 | the fields change as ApplySettings says; invariant kept |
| FreezeFilter.FreezeInfo.FreeTextures | freeze-filter.c:29-37 | the fields change as FreeTextures says; no buffer afterwards |
| FreezeFilter.FreezeInfo.CheckSize | freeze-filter.c:39-61 | the fields and the result are those CheckSize describes |
| FreezeFilter.FreezeInfo.VideoRender | freeze-filter.c:110-155 | the fields and the outcome are those Render describes |
| FreezeFilter.FreezeInfo.VideoTick | freeze-filter.c:228-261 | the fields change as Tick says (timer logic, then the geometry check) |
| FreezeFilter.FreezeInfo.DoAction | freeze-filter.c:263-272 | the fields change as DoAction says |
| FreezeFilter.FreezeInfo.Activate | freeze-filter.c:274-278 | dispatches the configured activate action |
| FreezeFilter.FreezeInfo.Deactivate | freeze-filter.c:280-284 | dispatches the configured deactivate action |
| FreezeFilter.FreezeInfo.Show | freeze-filter.c:286-290 | dispatches the configured show action |
| FreezeFilter.FreezeInfo.Hide | freeze-filter.c:292-296 | dispatches the configured hide action |
| FreezeFilter.FreezeInfo.EnableHotkey | freeze-filter.c:200-213 | the fields and the result are those EnableHotkey describes |
| FreezeFilter.FreezeInfo.DisableHotkey | freeze-filter.c:215-226 | the fields and the result are those DisableHotkey describes |

## Left out

- Graphics calls are foreign GPU work, represented only by `RenderOutcome` and the `hasRender` flag. This covers texture contents, effects, blend state, clearing, `gs_ortho`, `draw_frame`'s draw loop and the capture pass itself.
- Buffer creation is assumed to succeed: a failure of `gs_texrender_create` (freeze-filter.c:125) is not modelled.
- The choice between `obs_source_default_render` and `obs_source_video_render` (freeze-filter.c:144-147) is a host call that renders one frame either way, so it is not modelled.
- Hotkey registration and unregistration (freeze-filter.c:75-77, 248-259) and `obs_enter_graphics`/`obs_leave_graphics` are host API calls with no effect on this state.
- `freeze_destroy` (freeze-filter.c:72-80) is not modelled; it only unregisters the hotkey, frees the buffer and releases memory.
- The property UI, defaults, name, localisation and module registration (freeze-filter.c:23-27, 157-198, 298-333) are user interface and plumbing.
- The numeric action codes come from `freeze-filter.h`, which is not part of this model. Settings carry an `Action` directly, so the uint32 truncation of action codes is not modelled.
- `float` rounding of `duration` and of the `* 1000.0` comparisons is not modelled; durations are exact reals.
- FreezeFilter.FreezeInfo.VideoTick: requires a non-negative frame time, which is what the host passes; the source accepts any `float`.
- Upstream width and height are unbounded naturals rather than `uint32_t`; no arithmetic is done on them.
- FreezeSpec.Create: applies the settings as part of creation. freeze_create asks the host to update the source (freeze-filter.c:68); the model takes that update to be the filter's own freeze_update run at once. If the host defers it, the configuration stays all zero until then, and the model does not capture that window.
