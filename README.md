# Smart-home gesture and voice control — a Dafny model of the control core

The system turns a hand shown to a camera, or a spoken command, into an
appliance action. This project models the deterministic core of that
pipeline in Dafny and proves properties of it.

- **Finger counting** (`HandFingers`, `gesture-control/main.py`).
  `count_fingers` reads five tip landmarks of a 21-landmark hand and
  compares each with a joint of the same finger. The result is proved to be
  the number of extended fingers, and so to lie in [0, 5].
- **Gesture debouncing** (`GestureControl`, `gesture-control/main.py`).
  `detect_gesture` keeps two module globals: the time of the last emission
  and its type. It reports 'open' (4 or more fingers) or 'closed' (1 or
  fewer) only when a cooldown of 1.0 s has passed and the gesture differs
  from the last one emitted.
  - The globals are the fields of the class `GestureDetector`. `Detect`
    updates them in place and is proved equal to the pure transition
    function `Step`.
  - `Run` folds `Step` over a sequence of camera frames.
  - `ControlLoop` is the camera loop reduced to what reaches `on()` and
    `off()`. It is proved to call them alternately, at least a cooldown
    apart.
- **Training-sentence generation** (`Templates` and `VoiceControl`). Each
  intent has a list of patterns containing the placeholder `{appliance}`.
  - `voice-control/main2.py` and `voice-control/voice-control.py` share the
    same `generate_intent_sentences(appliance)`, so both are modelled once,
    in `Templates`. It has two nested loops.
  - `voice-control/main.py` has a three-loop variant over every known
    appliance, modelled in `VoiceControl`.
  - In both, the loops are methods proved equal to specification functions.
    The order of the output (intent, then appliance, then pattern) and its
    labelling are proved about those functions.
  - The placeholder substitution is Python's `str.replace`. It is proved
    equal to `rep.join(s.split(pat))`.
- **Appliance extraction** (`VoiceControl.ExtractAppliance`).
  `extract_appliance` lower-cases the text and returns the first known
  appliance that occurs in it, or None.

Some of the source's inputs are parameters here:
- The intent dictionary `INTENTS` (loaded from `intents.json`) is a sequence
  of (name, patterns) pairs, in the dictionary's iteration order.
- The appliance list `APPLIANCES` is a sequence of strings.
- The clock reading `time.time()` is the `time` of each `Frame`.
- The hand MediaPipe detects is an optional sequence of landmarks.

The model follows the code as written where it differs from its comments:
- **The thumb test.** The two thumb branches ("right hand" `<`, "left hand"
  `>`) together count the thumb whenever the tip's x differs from the
  joint's x. That is, almost always: the comment's intent of a
  handedness-dependent test is not what the code does. `CountFingers`
  states this outright.
- **The initial time.** `last_gesture_time` starts at `0`, not at minus
  infinity. So with a clock counting from 0, no frame before time 1.0 can
  fire (`FirstCooldownSuppressed`). With the wall clock the source reads,
  the first check always passes.
- **The order of checks.** The cooldown is checked before the fingers are
  counted, so a frame inside the window never changes the state.
- **Decreasing timestamps.** Nothing in the model needs the timestamps to
  increase. The spacing property is about the times of the emissions
  themselves.

## Model

| member | source | states |
|---|---|---|
| HandFingers.IsExtended | gesture-control/main.py:45-64 | the thumb counts exactly when its tip's x differs from its joint's x (the two branches together); any finger counted has its tip at a different landmark position from its joint |
| HandFingers.ExtendedAmong | gesture-control/main.py:37-66 | the result is within the given fingers, and a finger is in it exactly when it is among them and extended |
| HandFingers.ExtendedCount | gesture-control/main.py:43-64 | the number of extended fingers is the sum of one point per extended finger, thumb, index, middle, ring and pinky |
| HandFingers.CountFingers | gesture-control/main.py:37-66 | the count is at most 5 and equals the number of extended fingers; thumb counted iff tip x differs from joint x (both branches together); index, middle, ring, pinky counted iff tip 8/12/16/20 is above (smaller y than) joint 6/10/14/18 |
| GestureControl.Step | gesture-control/main.py:69-97 | no hand, or a frame less than the cooldown after the last emission, yields None and leaves the state alone; 'open' iff hand present, cooldown elapsed, at least 4 fingers and last type not 'open'; 'closed' likewise with at most 1 finger and last type not 'closed'; 2-3 fingers yield None; an emission records its time and type, differs from the last type and is at least a cooldown after it |
| GestureControl.GestureDetector.constructor | gesture-control/main.py:20-22 | the globals start as time 0 and no gesture |
| GestureControl.GestureDetector.Detect | gesture-control/main.py:69-97 | updating the two globals in place returns the gesture `Step` returns and leaves the globals in the state `Step` yields; unchanged when nothing is emitted, set to the frame time and gesture otherwise |
| GestureControl.Run | gesture-control/main.py:150-198 | folding `detect_gesture` over the frames emits at most one gesture per frame, and a run that emits nothing leaves the globals as they were |
| GestureControl.RunAlternatesAndSpaces | gesture-control/main.py:69-97 | over any frames: no more emissions than frames, emissions alternate between open and closed, consecutive emissions are at least a cooldown apart, the first differs from the starting last type and comes a cooldown after the starting time, and the final state records the last emission (or is the starting state) |
| GestureControl.HeldGestureNeverRefires | gesture-control/main.py:86-97 | frames that only repeat the recorded gesture (or are undecided or handless) emit nothing and leave the state unchanged, however many there are |
| GestureControl.FirstCooldownSuppressed | gesture-control/main.py:20-22 | from the initial globals, a frame earlier than time 1.0 never emits and changes nothing |
| GestureControl.Handler | gesture-control/main.py:207-213 | 'open' calls `on()` and 'closed' calls `off()` (each exactly when), at the time of the frame that produced the gesture |
| GestureControl.Dispatch | gesture-control/main.py:207-213 | one handler call per emission, in order: `on()` for open, `off()` for closed, at the emission's frame time |
| GestureControl.ControlLoop | gesture-control/main.py:140-213 | the calls made are the dispatch of the run from the initial globals; calls alternate between `on()` and `off()`, are at least a cooldown apart, and the first is no earlier than time 1.0 |
| Text.LowerChar | voice-control/main.py:49 | ASCII capitals map to the lower-case letter 32 code points above; every other character is unchanged |
| Text.Lower | voice-control/main.py:49 | `lower()` keeps the length and folds each character |
| Text.LowerIdempotent | voice-control/main.py:49 | lower-casing twice is lower-casing once |
| Text.Contains | voice-control/main.py:51 | a string contains only substrings no longer than itself, and contains the empty string |
| Text.ContainsIffOccurs | voice-control/main.py:51 | the `in` test holds iff the substring occurs at some position |
| Text.ReplaceAll | voice-control/main.py:23 | `replace` leaves a string without an occurrence of the pattern unchanged |
| Text.Split | voice-control/main.py:23 | `split` yields at least one piece |
| Text.SplitFirstIsPrefix | voice-control/main.py:23 | the first piece of a split is a prefix of the string |
| Text.SplitPiecesFree | voice-control/main.py:23 | `split` cuts at every occurrence: no piece contains the separator |
| Text.ReplaceIsJoinOfSplit | voice-control/main.py:23 | `s.replace(pat, rep) == rep.join(s.split(pat))` |
| Text.JoinSplit | voice-control/main.py:23 | `sep.join(s.split(sep)) == s` |
| Templates.Instantiate | voice-control/main2.py:24 | the sentence is the pattern split at `{appliance}` and joined with the appliance; a pattern without a placeholder is kept as is |
| Templates.Repeat | voice-control/main2.py:26 | `n` labels, each the intent's name |
| Templates.RepeatAdd | voice-control/main2.py:26 | appending labels one run after another gives one run of the total length |
| Templates.Fill | voice-control/main2.py:23-26 | one sentence per pattern |
| Templates.FillAt | voice-control/main2.py:23-26 | sentence `p` is pattern `p` with the appliance substituted |
| Templates.ExpandFor | voice-control/main2.py:22-26 | one sentence per pattern over all intents |
| Templates.LabelsFor | voice-control/main2.py:22-26 | one label per pattern over all intents |
| Templates.ExpandForAt | voice-control/main2.py:22-26 | the sentence after all patterns of the intents before `i`, plus `p`, is pattern `p` of intent `i` with the appliance substituted |
| Templates.LabelsForAt | voice-control/voice-control.py:26-30 | the label at that position is the name of intent `i` |
| Templates.AppendPatterns | voice-control/main2.py:23-26 | the pattern loop appends the instantiated patterns, in order, to the sentences and that many copies of the intent's name to the labels |
| Templates.GenerateIntentSentences | voice-control/main2.py:14-28 | the two loops return exactly the specified sentences and labels, both as long as the total number of patterns (the same code is `voice-control/voice-control.py` lines 18-32) |
| VoiceControl.ExpandIntent | voice-control/main.py:21-25 | one intent yields one sentence per (appliance, pattern) pair: `len(APPLIANCES)` times its number of patterns |
| VoiceControl.ExpandAll | voice-control/main.py:20-25 | the sentences of all intents number `len(APPLIANCES)` times the total number of patterns |
| VoiceControl.LabelsAll | voice-control/main.py:20-25 | there are as many labels as sentences |
| VoiceControl.ExpandAllAppend | voice-control/main.py:20 | the sentences of two intent lists in a row are those of the first followed by those of the second |
| VoiceControl.LabelsAllAppend | voice-control/main.py:20 | the same for the labels |
| VoiceControl.IntentBlock | voice-control/main.py:20-25 | intent `i`'s sentences (each labelled with its name) sit between those of the intents before it and those after it |
| VoiceControl.ApplianceBlock | voice-control/main.py:21-25 | within an intent, appliance `j`'s sentences (its patterns in order) sit between those of the appliances before it and those after it |
| VoiceControl.SingleApplianceAgrees | voice-control/main.py:14-27 | with the single appliance the script configures, its sentences and labels are those of the per-appliance generator |
| VoiceControl.AppendIntent | voice-control/main.py:21-25 | the appliance loop appends the intent's sentences, appliance by appliance, and one label per sentence |
| VoiceControl.GenerateIntentSentences | voice-control/main.py:16-27 | the three loops return exactly the specified sentences and labels, each `len(APPLIANCES)` times the number of patterns long |
| VoiceControl.FirstContained | voice-control/main.py:50-53 | None iff no appliance occurs in the text; otherwise an appliance that occurs, with no earlier appliance occurring |
| VoiceControl.ExtractAppliance | voice-control/main.py:48-53 | None iff no appliance occurs in the lower-cased text; otherwise the first appliance, in list order, that occurs in it |
| VoiceControl.ExtractIgnoresCase | voice-control/main.py:49 | the text and its lower-cased form give the same answer |

## Left out

- Hand landmark detection (the MediaPipe model), camera capture and frame
  flipping are foreign calls. The detected hand is an input to the model.
- Drawing landmarks, the instruction panels, the cooldown countdown overlay
  and the window handling are display only. They do not affect the state
  or the handler calls.
- `on()` and `off()` only print. Each call is modelled as an `On` or `Off`
  record carrying the frame time.
- `time.time()` is an input: the time of each frame.
- Landmark coordinates are floating-point numbers in the source and `real`
  here. Rounding is not modelled.
- `predict_intent` is not modelled: sentence embeddings and cosine
  similarity are computed by a neural model.
- The `print` of the generated sentences and the loading of `intents.json`
  and of the embedding model are I/O.
- The speech-to-text scripts, the web-socket servers and the
  microcontroller firmware are not part of this model.
- Text.LowerChar: folds ASCII capitals only ('A' to 'Z'); a non-ASCII
  capital such as 'Ä' is left as it is, where Python's `str.lower` gives 'ä'.
- Text.Lower: folds ASCII capitals only. Python's `str.lower` also folds
  other Unicode letters, some into more than one character.
- Text.ReplaceAll: models only a non-empty pattern. The scripts always
  replace the non-empty `{appliance}`, and Python's behaviour for an empty
  pattern is not needed.
- HandFingers.CountFingers: requires at least 21 landmarks. On a shorter
  list `count_fingers` raises IndexError; the hand model always returns 21,
  so that error path is not modelled.
