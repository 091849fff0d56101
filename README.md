# Webcam style-transfer loop: index, timer and registry bookkeeping

`run_webcam.py` shows a live camera feed through one of several trained
style-transfer networks. It lists the `models` directory and builds one
registry entry per name: a checkpoint path and a style image path. It
rounds the working width and height up to multiples of 4, because the
transform network halves and re-doubles each dimension twice. Then it
loops forever:

- ESC leaves the loop.
- `a` selects the previous model and `s` the next one, wrapping around.
- If automatic rotation is on and more than `num_sec` whole seconds have
  passed since the last timed switch, the loop moves to the next model and
  restarts the timer.

Every switch restores that model's checkpoint and reads its style image.

This project models that integer bookkeeping in three modules:

- `Dimensions` (`dimensions.dfy`): the round-up to a multiple of 4 and the
  working dimensions built from it.
- `Registry` (`registry.dfy`): `load_all_models`, a loop that appends one
  entry per listed name. Paths are joined as POSIX `os.path.join` joins
  them.
- `CaptureLoop` (`capture_loop.dfy`): the loop's state machine, in two forms.
  - A pure specification: one pass is the function `Transition`, and a run
    over a finite sequence of passes is `Iterate`.
  - An imperative `Session` class: its fields `idx`, `t1` and `loaded`
    change as the source's `idx_model`, `t1` and loaded checkpoint/style do.
    `Step` and `Run` are proved to do exactly what `Transition` and
    `Iterate` say.

A pass is a `Tick` with three fields:

- the key code `waitKey` returned;
- the clock read for the timer check (line 142);
- the clock read again when a timed switch restarts the timer (line 145).

Clocks are integers counting microseconds. The elapsed time is modelled as
Python's `timedelta.seconds`: the whole seconds of the difference, modulo
one day. Restoring a checkpoint and reading a style image are modelled as
an event: "index i was reloaded".

Behaviour of the code worth knowing, all of it proved about the model:

- **Timing of the timer.** The timer compares whole seconds with a strict
  `>`, so the first timed switch comes `num_sec + 1` seconds after the
  timer starts. With two models and a five-second interval, the index
  advances at 6 s and again at 12 s; at 11 s it has advanced once
  (`TwoModelsElevenSeconds`, `TwoModelsTwelveSeconds`).
- **When rotation is on.** The help text of `--num_sec` (line 35) gives -1
  as the value that disables rotation. The test at line 144 is
  `num_sec>0`, so 0 and every negative value disable it too.
- **When the timer restarts.** A key switch never restarts the timer; only
  a timed switch does (line 145).
- **A timed switch can follow a key switch.** A pass that switches by key
  can also switch by timer, which gives two reloads.
- **Which directory entries count.** The registry holds every entry that
  `os.listdir("models")` returns, files included (lines 19-24).
- **Effect of `timedelta.seconds`:**
  - an interval of 86399 seconds or more never fires
    (`TimerNeverDueForDayLongInterval`);
  - a clock that steps back by up to a second reads as 86399 elapsed
    seconds and fires (`ElapsedSecondsClockBack`).

## Model

| member | source | states |
|---|---|---|
| Dimensions.RoundUp4 | run_webcam.py:92 | the result is divisible by 4 and lies in `[n, n + 4)` |
| Dimensions.RoundUp4KeepsAligned | run_webcam.py:92 | a value already divisible by 4 is returned unchanged |
| Dimensions.RoundUp4Idempotent | run_webcam.py:92 | rounding twice equals rounding once |
| Dimensions.RoundUp4IsLeast | run_webcam.py:92 | the result is the least multiple of 4 that is at least `n` |
| Dimensions.RoundUp4ClosedForm | run_webcam.py:92 | the result equals the independent closed form `4 * ceil(n / 4)` |
| Dimensions.RoundUp4Monotonic | run_webcam.py:92 | rounding preserves order |
| Dimensions.WorkingDims | run_webcam.py:92-94 | both working dimensions are divisible by 4, at least the requested width and the pre-rounding height, less than each plus 4, and unchanged when already aligned |
| Registry.Join | run_webcam.py:21-22 | an absolute second part replaces the first; otherwise the result extends the first part by at most a separator and the second part |
| Registry.Join3 | run_webcam.py:21-22 | three-part `os.path.join`: under a directory not ending in `/`, two listed names are joined with exactly one `/` before each |
| Registry.EntryFor | run_webcam.py:20-22 | the entry of a listed name `d` holds exactly `models/d/fns.ckpt` and `models/d/img.jpg` |
| Registry.NameOfCheckpoint | run_webcam.py:21 | a recovered name `d` is one whose checkpoint path is `models/d/fns.ckpt` |
| Registry.NameOfCheckpointRoundTrip | run_webcam.py:21 | recovering the name from a listed name's checkpoint path gives that name back |
| Registry.EntryForInjective | run_webcam.py:19-22 | distinct listed names give distinct entries |
| Registry.LoadAllModels | run_webcam.py:16-26 | one entry per listed name, in listing order, with the checkpoint and style paths of that name; distinct names give distinct entries |
| CaptureLoop.Prev | run_webcam.py:132 | the previous index is in `[0, n)` |
| CaptureLoop.PrevFormula | run_webcam.py:132 | `(idx + n - 1) % n` is always in `[0, n)`, and for an index in range it is the wrap-around predecessor (0 goes to `n - 1`) |
| CaptureLoop.Next | run_webcam.py:137 | the next index is in `[0, n)` |
| CaptureLoop.NextFormula | run_webcam.py:137 | `(idx + 1) % n` is always in `[0, n)`, and for an index in range it is the wrap-around successor (`n - 1` goes to 0) |
| CaptureLoop.PrevUndoesNext | run_webcam.py:132-137 | a step forward then a step back restores the index |
| CaptureLoop.NextUndoesPrev | run_webcam.py:132-137 | a step back then a step forward restores the index |
| CaptureLoop.AdvanceWraps | run_webcam.py:137 | `k <= n` steps forward give `idx + k`, wrapped once past `n` |
| CaptureLoop.RetreatWraps | run_webcam.py:132 | `k <= n` steps back give `idx - k`, wrapped once below 0 |
| CaptureLoop.ElapsedSeconds | run_webcam.py:142-144 | `timedelta.seconds` is always in `[0, 86400)` |
| CaptureLoop.ElapsedSecondsWithinADay | run_webcam.py:143-144 | within a day it is the whole seconds elapsed, with the fraction dropped |
| CaptureLoop.ElapsedSecondsClockBack | run_webcam.py:143-144 | a clock that stepped back by at most a second reads as 86399 seconds |
| CaptureLoop.TimerDueWithinADay | run_webcam.py:144 | within a day the timer fires exactly when `num_sec > 0` and at least `num_sec + 1` whole seconds have passed |
| CaptureLoop.TimerDue | run_webcam.py:144 | the timer can fire only when `0 < num_sec < 86399` |
| CaptureLoop.QuietWithinInterval | run_webcam.py:142-144 | with rotation on, passes less than `num_sec + 1` seconds after `t1` keep the timer quiet |
| CaptureLoop.TimerNeverDueForDayLongInterval | run_webcam.py:144 | an interval of 86399 seconds or more never fires |
| CaptureLoop.KeySwitch | run_webcam.py:131-140 | the index after the key is in range |
| CaptureLoop.Transition | run_webcam.py:128-149 | a pass exits exactly on ESC; otherwise the new index is in range, there are at most two reloads, each names a model, and the last reload is the new index |
| CaptureLoop.KeyStep | run_webcam.py:128-140 | with the timer not due: ESC exits; `a` and `s` step the index back or forward with wrap-around, reload it and keep `t1`; any other key changes nothing and reloads nothing |
| CaptureLoop.EscSkipsTimer | run_webcam.py:129-130 | ESC exits even when the timer is due |
| CaptureLoop.TimerStep | run_webcam.py:142-149 | when the timer is due, the index advances once more past the key's choice, `t1` becomes the second clock reading and that index is reloaded; otherwise `t1` is kept and the index is the key's choice |
| CaptureLoop.NextKeyAndTimer | run_webcam.py:136-149 | `s` on a pass where the timer fires moves two steps and reloads both indices |
| CaptureLoop.Iterate | run_webcam.py:108-149 | a run of passes ends with the index in range |
| CaptureLoop.NextPresses | run_webcam.py:136-149 | on passes where the timer does not fire (at any interval), `k` presses of `s` move `k` steps forward, reload each index on the way in order, and keep `t1` |
| CaptureLoop.PrevPresses | run_webcam.py:131-149 | on passes where the timer does not fire (at any interval), `k` presses of `a` move `k` steps back, reload each index on the way in order, and keep `t1` |
| CaptureLoop.NextPressesCycle | run_webcam.py:136-149 | on passes where the timer does not fire, `n` presses of `s` return to the starting state |
| CaptureLoop.PrevPressesCycle | run_webcam.py:131-149 | on passes where the timer does not fire, `n` presses of `a` return to the starting state |
| CaptureLoop.NextThenPrev | run_webcam.py:131-149 | on two passes where the timer does not fire, `s` then `a` returns to the starting state after reloading the next model and then the original one |
| CaptureLoop.OtherKeysKeepState | run_webcam.py:128-149 | on passes where the timer does not fire, keys other than ESC, `a` and `s` change nothing and reload nothing |
| CaptureLoop.TimerOffKeepsT1 | run_webcam.py:144-145 | with rotation off, `t1` never changes |
| CaptureLoop.IterateInRange | run_webcam.py:108-149 | the index stays in range and every reload names a model |
| CaptureLoop.IterateAppend | run_webcam.py:108 | running two stretches of passes equals running the first, then the second from where the first stopped, unless ESC ended the first |
| CaptureLoop.QuietWindow | run_webcam.py:142-149 | with rotation on and no key, passes less than `num_sec + 1` seconds after the last timed switch change nothing |
| CaptureLoop.TimedSwitchAt | run_webcam.py:142-149 | with no key, a pass at least `num_sec + 1` seconds (and less than a day) after the last timed switch moves to the next model, reloads it and restarts the timer at that pass |
| CaptureLoop.QuietThenSwitch | run_webcam.py:142-149 | one pass per second with no key: nothing happens until exactly `num_sec + 1` seconds after the last switch, then one timed switch |
| CaptureLoop.FirstTimedSwitch | run_webcam.py:142-149 | from 0 s with one pass per second, the first timed switch is at `num_sec + 1` s, and nothing else happens up to `2 * num_sec + 1` s |
| CaptureLoop.SecondTimedSwitch | run_webcam.py:142-149 | the second timed switch is at `2 * num_sec + 2` s |
| CaptureLoop.TwoModelsElevenSeconds | run_webcam.py:142-149 | two models, interval 5 s: after 11 s the index has advanced once, to 1, at 6 s |
| CaptureLoop.TwoModelsTwelveSeconds | run_webcam.py:142-149 | the same run wraps back to 0 at 12 s, after reloading 1 and then 0 |
| CaptureLoop.Session.constructor | run_webcam.py:81-105 | the timer starts at the given clock, the index is 0, and model 0 is loaded |
| CaptureLoop.Session.HandleKey | run_webcam.py:131-140 | `a` and `s` run the source's modular updates, which equal the wrap-around step, reload that index and keep `t1`; other keys change nothing |
| CaptureLoop.Session.CheckTimer | run_webcam.py:142-149 | when the timer is due, it advances the index by the source's `(idx + 1) % n`, restarts `t1` at the second clock reading and reloads; otherwise nothing changes |
| CaptureLoop.Session.Step | run_webcam.py:128-149 | one pass changes the state and reports exit and reloads exactly as `Transition`; ESC changes nothing |
| CaptureLoop.Session.Run | run_webcam.py:108-149 | the loop over a sequence of passes ends in the state, with the reloads and the exit flag, that `Iterate` gives |

## Left out

- TensorFlow is not modelled because these are foreign library calls. This
  covers graph construction, inference (lines 99-101, 115) and
  `load_checkpoint` (lines 38-46). A reload is only the event "index i was
  reloaded"; whether the restore succeeds, and the log line it writes, are
  not modelled.
- OpenCV is not modelled because it is device and UI I/O. This covers
  capture, resize, flip, `imread`, `imshow` and window management (lines
  88-90, 109-111, 118-127, 152-153). `waitKey` becomes the key code of a
  pass.
- `get_camera_shape` (lines 49-55) is not modelled because it reads device
  properties.
- The height from the camera's aspect ratio (line 93) is floating point. It
  is an integer input, `rawHeight`, to `WorkingDims`.
- `make_triptych` (lines 58-75) and the display resize (lines 124-125) are
  not modelled because they are float arithmetic around array library
  calls.
- `np.clip` and `astype(uint8)` (lines 116-117) are not modelled because
  they are float array numerics.
- `os.listdir` is I/O; its result is the input `names` of `LoadAllModels`.
- Printing, logging and argument parsing (lines 14, 23, 29-35, 97-98,
  157-158) are not modelled because they are side output and CLI plumbing.
- An empty `models` list makes the source fault at its first lookup (line
  104). `Session.constructor` and every loop lemma require at least one
  model instead of modelling the fault.
- The `while True` loop is unbounded. It is modelled over finite sequences of
  passes: `Iterate` and `Session.Run` stop at ESC or at the end of the input.
- `datetime.now()` is an input: the two clock readings of each pass.
- Registry.Join: its own contract gives only the absolute-path case and a
  bound. The exact paths for listed names are stated by `Join3` and
  `EntryFor`.
- Only POSIX path joining is modelled. On Windows `os.path.join` is
  `ntpath.join`, which joins with `\` and treats drive letters specially;
  the model does not cover it.
