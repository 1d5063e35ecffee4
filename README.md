# Imposter alarm: configuration reader and detection-episode controller

The imposter alarm watches a camera. When pose detection finds a person it
emails a captured frame to a fixed recipient, once per detection episode. It
also keeps a beep loop sounding until the person is gone. This project models
the two pieces of original logic in `imposter_alarm.py` and proves properties
about them:

- **`load_env_file` and the credential lookups** (module `EnvConfig`). The
  configuration file is modelled as a sequence of lines. `LoadEnvFile` is the
  source's `for` loop, filling a `map<string, string>` in place. It is proved
  equal to the specification `ParseLines`. `ParseLines` first classifies each
  line (`Classify`: skipped, an entry, or malformed) and then builds the
  dictionary (`Build`). The lemmas about duplicate keys, skipped lines and
  errors are stated over those line kinds. `Kinds(lines)[i]` is
  `Classify(lines[i])`. `Strip` and `SplitAtFirst` model Python's
  `str.strip()` and the unpacked `str.split('=', 1)`. `IsSpace` is the
  character set that `str.isspace()` accepts. `RequireCredentials` models the
  three subscript lookups of `SENDER_EMAIL`, `EMAIL_PASSWORD` and
  `RECEIVER_EMAIL`.
- **The main loop's episode and alarm state** (module `AlarmMonitor`). The
  class `Monitor` holds the globals `sent_email` and `stop_beep`, and
  `alarmRunning` for "the beep thread is alive". `ObserveFrame` is the
  detection branch for one frame. `Stop` sets the stop flag and joins the beep
  thread if it is alive. Both are proved against the pure functions `Step`
  and `StopAlarm`. `RunMonitor` is the `while` loop over a sequence of
  `Frame`s. A frame is a failed read, or a captured frame with a presence
  boolean and a quit-key boolean. The end of the sequence stands for
  `cap.isOpened()` turning false. The loop records the frame indices (from 0)
  where an email thread is started and the alarm state after each frame.
  `RunMonitor` is proved equal to the specification `Run`, and the
  properties of detection episodes are proved about `Run`.
- **The script as a whole** (module `ImposterAlarm`). `RunProgram` reads the
  configuration and looks up the credentials. Only if both succeed does it run
  the loop, so a configuration error ends the run before any frame is read.

What the code does at three points where a reader might expect otherwise:

- The configuration may hold any number of extra keys. Loading fails only
  when a kept line has no `=`, and startup fails only when one of the three
  required keys is missing.
- The `#` test is on the raw line, before stripping. An indented `#` line is
  therefore kept. Its key starts with `#`, and if it holds no `=` the whole
  load fails (`IndentedCommentIsMalformed`).
- Every absent frame sets the stop flag, whether or not the alarm is
  sounding. The beep thread is joined only when it is alive. `Step` does the
  same, and `StepSpec` states the stop flag after every frame.

## Model

| member | source | states |
|---|---|---|
| `EnvConfig.StripIsTrimmedSlice` | imposter_alarm.py:17-18 | `line.strip()` returns the slice of the line after its leading whitespace; the slice starts and ends with a non-whitespace character, and only whitespace follows it |
| `EnvConfig.StripEmptyIff` | imposter_alarm.py:17 | a line strips to the empty string exactly when every character is whitespace, i.e. exactly the blank lines are skipped by `line.strip()` |
| `EnvConfig.SplitAtFirst` | imposter_alarm.py:18 | `split('=', 1)` unpacked into two names: None exactly when there is no `=`; otherwise the line is key + `=` + value and the key holds no `=`, so the value keeps every later `=` |
| `EnvConfig.LoadEnvFile` | imposter_alarm.py:13-20 | the in-place loop over the lines returns exactly the dictionary, or the first error, that `ParseLines` specifies |
| `EnvConfig.FailureIsFinal` | imposter_alarm.py:16-18 | once the unpack has failed on a line, no later line changes the outcome |
| `EnvConfig.FailsIff` | imposter_alarm.py:17-18 | loading fails if and only if some kept line has no `=`, and the error names the first such line |
| `EnvConfig.ParsedKeys` | imposter_alarm.py:16-19 | the dictionary's keys are exactly the keys set by some kept line |
| `EnvConfig.LastValueWins` | imposter_alarm.py:19 | for a key set on several lines, the dictionary holds the value from the last of them |
| `EnvConfig.AppendEntry` | imposter_alarm.py:18-19 | one more line `k=v` sets entry `k` to `v` and leaves every other entry unchanged |
| `EnvConfig.AppendSkipped` | imposter_alarm.py:17 | one more blank line or line starting with `#` leaves the result unchanged |
| `EnvConfig.IndentedHashIsKept` | imposter_alarm.py:17 | the comment test is on the raw line: a `#` after leading whitespace is kept, and its stripped form starts with `#` |
| `EnvConfig.IndentedCommentIsMalformed` | imposter_alarm.py:17-18 | an indented `#` line with no `=` is not skipped; it is the malformed kind that makes loading fail |
| `EnvConfig.RequireCredentials` | imposter_alarm.py:24-26 | the lookups succeed if and only if all three required keys are present, and the credentials are their values; otherwise the error names the first missing key in lookup order |
| `ImposterAlarm.StartupSucceedsIff` | imposter_alarm.py:22-26 | startup succeeds if and only if no kept line lacks `=` and each of the three required keys is set by some line |
| `ImposterAlarm.CredentialsFromLastLines` | imposter_alarm.py:19-26 | each credential is the value of the last line that sets its key |
| `ImposterAlarm.RunProgram` | imposter_alarm.py:22-34 | a configuration error ends the run before the camera loop, with that error; otherwise the credentials are those of the file and the loop's record is `Run(frames)` |
| `AlarmMonitor.StepSpec` | imposter_alarm.py:98-119 | for one frame: a notification fires exactly when a person is present and no email was sent for the episode; the alarm is started exactly when present and not running; it is joined exactly when absent and running; afterwards `sent_email` and the alarm equal the presence result and the stop flag is set exactly on an absent frame; a running alarm never has its stop flag set |
| `AlarmMonitor.PresentTwiceIsIdempotent` | imposter_alarm.py:101-110 | a second present frame in a row changes nothing, sends no second email and does not start the alarm again |
| `AlarmMonitor.Monitor.constructor` | imposter_alarm.py:36-38 | the loop starts with no beep thread, a clear stop flag and `sent_email` false |
| `AlarmMonitor.Monitor.Stop` | imposter_alarm.py:114-117 | sets the stop flag, and joins the beep thread exactly when it was running, after which it is not running; `sent_email` is unchanged |
| `AlarmMonitor.Monitor.ObserveFrame` | imposter_alarm.py:98-119 | updates the fields exactly as `Step` does and returns its effects (email started, alarm started, alarm joined) |
| `AlarmMonitor.ExitIsFinal` | imposter_alarm.py:90-93 | after the loop has exited, further frames change nothing |
| `AlarmMonitor.RunMonitor` | imposter_alarm.py:88-127 | the loop returns exactly the record `Run` specifies: notification indices, alarm state after each frame, exit reason and final state |
| `AlarmMonitor.LoopInvariant` | imposter_alarm.py:90-127 | after any prefix of frames: the processed frames are all successful reads and only the last may carry the quit key; while running, `sent_email` and the alarm both equal the last frame's presence; a read failure is the next frame; after quit the alarm is stopped with the flag set; the alarm never runs with its stop flag set |
| `AlarmMonitor.NotifiedAtRisingEdges` | imposter_alarm.py:101-119 | a frame starts an email if and only if it was processed, shows a person, and is the first frame or follows a frame without one |
| `AlarmMonitor.NotifiedIncreasing` | imposter_alarm.py:90-104 | the recorded notification indices are strictly increasing |
| `AlarmMonitor.OneEmailPerEpisode` | imposter_alarm.py:101-119 | between any two emails there is a frame without a person, so at most one email is sent per run of present frames |
| `AlarmMonitor.AlarmFollowsPresence` | imposter_alarm.py:106-126 | after each processed frame the alarm is sounding if and only if a person was seen and the quit key was not pressed |
| `AlarmMonitor.ReadFailureEndsLoop` | imposter_alarm.py:91-93 | a failed read ends the loop with the state and record of the frames before it unchanged, and no later frame is read |
| `AlarmMonitor.ExitReasons` | imposter_alarm.py:90-127 | when the capture closes every frame was processed and none had the quit key; on a read failure the next frame is that failed read; on quit the last processed frame has the quit key, and the alarm is stopped with its flag set |
| `AlarmMonitor.TwoEpisodes` | imposter_alarm.py:90-119 | absent, present, present, absent, present: emails start at frames 1 and 4 (0-based), and the alarm state after each frame is off, on, on, off, on |

## Left out

- Opening and reading `config.env`: the file's content is the `lines` parameter, one string per line as iteration over the file yields them. A file that cannot be opened is not modelled.
- The kind of error: the source raises `ValueError` for a kept line without `=` and `KeyError` for a missing key. The model returns `NoSeparator(lineIndex)` and `MissingKey(key)`, and does not model the message text.
- Pose inference with `mediapipe` and the landmark drawing: each frame is reduced to its presence boolean.
- Video capture, the preview window, `waitKey` and the release of the camera and windows: a frame is a `Frame` value, the quit key is a boolean on it, and the end of the sequence is the capture closing.
- Building and sending the email over SMTP with STARTTLS, the confirmation beep and writing `saved_frame.jpg`: this is network and file I/O. A started email thread is a recorded notification index. Its success or failure is never observed by the loop, which runs the same either way.
- `email_lock`, the daemon threads and the thread scheduling: these are concurrency. `join` is a synchronous stop, and the email thread is an emitted event.
- `loop_beep`, `winsound.Beep` and the `time.sleep` cadence: the alarm is only a running flag. The bound "stops within one beep cycle" is timing and is not modelled; the model only has the join that waits for it.
- `beep_thread = None` after the join on an absent frame: a thread that is `None` and a joined, dead thread behave the same in the loop, and both are `alarmRunning == false`.
