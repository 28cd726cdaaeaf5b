# Hand-gesture camera control: a verified model of its core

This project models the core of a hand-gesture control application. The application:

- reads video from an ESP32-CAM MJPEG stream, or from a local webcam as a fallback;
- classifies a detected hand into a gesture from the positions of its landmarks;
- turns gestures into HTTP POST commands, with a debounce interval between commands.

The model has these parts:

- `Esp32Stream` (`esp32_stream.dfy`) models `ESP32CamStream`. The class keeps the byte buffer, the response and the chunk iterator as fields. `Read` runs the source's `while True` loop over the chunks the iterator still holds. It is proved against the function `ReadFrom`, and the lemmas about `ReadFrom` and `CutPart` state the framing behaviour. The stream is the sequence of chunks still to be delivered. The JPEG decoder is a function parameter.
- `Bytes` (`bytes.dfy`) defines byte strings and the first-occurrence search `bytes.find` performs.
- `Config` (`config.dfy`) models the `USE_ESP32` flag and the `ESP32_URL` default. An environment variable is an `Option<string>`.
- `CameraManager` (`camera_manager.dfy`) models the start-up source choice as a function of the settings and the two device outcomes. It returns the camera, or `exit(1)`, and the list of attempts made.
- `GestureControl` (`gesture_control.dfy`) models `GestureController` as a class. Its one mutable field is `lastCommandTime`. Time is integer ticks. What the POST did is an input, and the POST that was issued is an output. `SendGesture` and `Run` describe single calls and runs of calls. The debounce lemmas are proved about them.
- `GestureRecognition` (`gesture_recognition.dfy`) models the finger states (`CountFingers`, with the source's append loop) and the ordered rule table that names a gesture (`Classify`, `Label`, `RecognizeGesture`).
- `Wrappers` (`wrappers.dfy`) holds `Option`.

Three behaviours of the code are easy to misread. The model follows the code in each:

- A part with no header terminator before its boundary is kept at the front of the buffer. It is not dropped and scanning does not move past it; see Findings.
- `send_gesture_command` is synchronous. It waits for the POST, advances the timestamp only after a 200 answer, and returns whether that answer came.
- `release` tests the response's truth value, and `requests` makes that false for 4xx and 5xx statuses. A stream opened on such a response is therefore never closed or cleared. `Response` carries the status so that `Release` shows this.

Two natural statements needed sharper preconditions, stated in `WellFormedPart`:

- "The header holds no `\r\n\r\n`" does not make the payload exact. A header ending in `\r\n` overlaps the terminator.
- "The part holds no boundary" does not make the payload exact either. A payload ending in `\r\n--frame` overlaps the boundary.

## Model

| member | source | states |
|---|---|---|
| `Bytes.Find` | src/camera/esp32_stream.py:81-88 | `find` returns the index of the first occurrence of the pattern, and -1 exactly when there is none |
| `Esp32Stream.CutPart` | src/camera/esp32_stream.py:78-94 | after one boundary search, the buffer is unchanged unless a payload is cut out; a cut-out payload, the boundary and the new buffer all lie inside the old buffer, and the new buffer is a suffix of it |
| `Esp32Stream.CutWellFormed` | src/camera/esp32_stream.py:80-94 | for a buffer `H ++ "\r\n\r\n" ++ J ++ boundary ++ R`, with those first occurrences, the payload is exactly `J` and the new buffer is exactly `R` |
| `Esp32Stream.CutIsWellFormed` | src/camera/esp32_stream.py:80-94 | conversely, every payload cut out is the `J` of such a decomposition, and the new buffer is its `R` |
| `Esp32Stream.ReadFrom` | src/camera/esp32_stream.py:66-104 | a read consumes a prefix of the chunks; a read without a frame has consumed them all; a returned frame is the decoding of a non-empty payload |
| `Esp32Stream.EmptyChunkIgnored` | src/camera/esp32_stream.py:73-74 | an empty chunk leaves the reading exactly as if it had not been delivered |
| `Esp32Stream.ChunkAppended` | src/camera/esp32_stream.py:73-83 | a non-empty chunk is appended at the end of the buffer before the single boundary search of that step |
| `Esp32Stream.ReadWellFormedPart` | src/camera/esp32_stream.py:80-104 | a chunk that completes a well-formed part with a decodable non-empty payload makes the read return that frame and leave exactly `R` |
| `Esp32Stream.ReadSkipsUndecodablePart` | src/camera/esp32_stream.py:89-104 | a well-formed part whose payload is empty or does not decode is removed from the buffer, not returned, and reading continues from `R` |
| `Esp32Stream.SecondPartWaitsForNextChunk` | src/camera/esp32_stream.py:66-94 | only one boundary is handled per chunk: a second complete part left behind a skipped one is not returned by that read, only after the next chunk |
| `Esp32Stream.MalformedPartKept` | src/camera/esp32_stream.py:81-89 | when no header terminator comes before the first boundary, appending keeps the same first boundary and the cut keeps the buffer |
| `Esp32Stream.StalledBufferOnlyGrows` | src/camera/esp32_stream.py:76-94 | once no appended bytes can make the cut trim the buffer, every later chunk is only appended and no frame is returned |
| `Esp32Stream.MalformedPartStallsForever` | src/camera/esp32_stream.py:83-94 | a first part with no header terminator is never trimmed: the buffer grows by every later chunk and no frame is ever returned |
| `Esp32Stream.LeadingBoundaryNeverYields` | src/camera/esp32_stream.py:78-94 | a stream whose first bytes are the boundary itself yields no frame, whatever follows and whatever the decoder does |
| `Esp32Stream.CutPartSkipping` | src/camera/esp32_stream.py:83-94 | the intended cut: with no boundary the buffer is kept; once a boundary is found, everything up to and including it is dropped, with or without a header terminator; whenever a payload is cut out it agrees with the code |
| `Esp32Stream.SkippingRecoversFromLeadingBoundary` | src/camera/esp32_stream.py:83-94 | with the intended cut, a leading boundary is dropped and the well-formed part after it is returned |
| `Esp32Stream.FindPart` | src/camera/esp32_stream.py:78-94 | the boundary search, header search and trim of one loop step cut the buffer exactly as `CutPart` states |
| `Esp32Stream.ESP32CamStream.constructor` | src/camera/esp32_stream.py:17-27 | a new stream has no response, an empty buffer and no iterator, and is not opened |
| `Esp32Stream.ESP32CamStream.Connect` | src/camera/esp32_stream.py:29-45 | success stores the response and a fresh iterator over its body, and the stream is then opened; failure changes nothing; the buffer is kept either way |
| `Esp32Stream.ESP32CamStream.Read` | src/camera/esp32_stream.py:47-110 | with no iterator the result is `(False, None)` and nothing changes; otherwise the frame, new buffer and remaining chunks are those of `ReadFrom`; success holds exactly when a frame is returned |
| `Esp32Stream.ESP32CamStream.IsOpened` | src/camera/esp32_stream.py:119-126 | true when both the response and its iterator are set; the constructor's contract makes it false, `Connect`'s makes it true after a success, and `Release`'s makes it false after clearing a truthy response |
| `Esp32Stream.ESP32CamStream.Release` | src/camera/esp32_stream.py:112-126 | the response is cleared only when it is set and truthy, so a second release changes nothing; the iterator and buffer are untouched; after clearing, `IsOpened` is false |
| `Config.Lower` | src/config.py:12 | lowercasing keeps the length and lowercases each character on its own |
| `Config.ParseEsp32Url` | src/config.py:13 | an unset `ESP32_URL` gives `YOUR_URL`; a set one is used as it is |
| `Config.ParseUseEsp32` | src/config.py:12 | the flag parse; `UseEsp32Exactly` states it is on exactly when the variable is unset or spells `true`, `1` or `yes` in any mix of cases, and `UseEsp32Examples` gives accepted and rejected values |
| `Config.Load` | src/config.py:12-13 | ESP32 mode is on exactly when `USE_ESP32` is unset or spells `true`, `1` or `yes` in any mix of cases; the URL is `YOUR_URL` when `ESP32_URL` is unset and the variable's value otherwise |
| `Config.LowerMatchesIgnoringCase` | src/config.py:12 | lowercasing gives a lower-case word exactly when the value spells that word in any mix of cases |
| `Config.UseEsp32Exactly` | src/config.py:12 | the flag is on exactly when the variable is unset, or spells `true`, `1` or `yes` in any mix of cases |
| `Config.UseEsp32Examples` | src/config.py:12 | unset, `YES`, `True` and `1` turn the flag on; the empty string, `0`, `false` and `on` turn it off |
| `CameraManager.OpenWebcamOrExit` | src/camera/camera_manager.py:33-43 | the webcam branch opens device 0 once, gives the webcam when it opens, and `exit(1)` otherwise |
| `CameraManager.InitializeCamera` | src/camera/camera_manager.py:10-65 | in ESP32 mode the configured URL is connected first; a successful connect is returned with no webcam opened; otherwise webcam 0 is tried exactly once, after at most that one connect; an exit is always status 1 after a failed webcam; the result is never "no camera" |
| `CameraManager.DefaultsFallBackToWebcam` | src/camera/camera_manager.py:26-47 | with an empty environment, the placeholder URL is tried first, then webcam 0 is used when it opens |
| `GestureControl.CommandPayload` | src/control/gesture_control.py:60-63 | the JSON body has the single key `command`, holding the command |
| `GestureControl.SendGesture` | src/control/gesture_control.py:37-90 | one call: a POST of `{'command': mapping[gesture]}` is issued exactly when the gesture is mapped and the debounce interval has passed; it counts as sent exactly on a 200 answer, and only a send moves the timestamp, to `now` |
| `GestureControl.Run` | src/control/gesture_control.py:37-90 | a run of calls gives one result and one timestamp per call |
| `GestureControl.SendsAfterDebounce` | src/control/gesture_control.py:52-75 | every send in a run comes at least one debounce interval after the starting timestamp and sets the timestamp to its own time; the timestamp never falls below its start |
| `GestureControl.DebounceSpacing` | src/control/gesture_control.py:52-75 | between any two calls that return True, at least the debounce interval has elapsed |
| `GestureControl.TimestampNeverDecreases` | src/control/gesture_control.py:52-75 | with a clock that never goes backwards, `last_command_time` never decreases and never passes the current time |
| `GestureControl.TwoCalls` | src/control/gesture_control.py:48-77 | two answered calls with a mapped gesture both send when a debounce interval apart, and only the first sends when they are closer |
| `GestureControl.GestureController.constructor` | src/control/gesture_control.py:21-31 | a missing or empty URL falls back to the control URL; the timestamp starts at 0 |
| `GestureControl.GestureController.SendGestureCommand` | src/control/gesture_control.py:37-90 | an unmapped gesture, or one inside the debounce interval, sends nothing and changes nothing; otherwise exactly `{'command': mapping[gesture]}` is posted; True and a timestamp moved to `now` happen exactly on a 200 answer; any other status or exception gives False and leaves the timestamp |
| `GestureControl.GestureController.SendCustomCommand` | src/control/gesture_control.py:92-123 | posts `{'command': command}` with no debounce and no state change; True exactly on a 200 answer |
| `GestureControl.GestureController.TestConnection` | src/control/gesture_control.py:125-144 | posts `{'command': 'test'}` with a 2-second timeout; True whenever the POST answers, whatever the status |
| `GestureRecognition.CountFingers` | src/detection/gesture_recognition.py:8-45 | exactly five states, ordered thumb, index, middle, ring, little; each is the strict comparison of its landmarks |
| `GestureRecognition.LevelMeansFolded` | src/detection/gesture_recognition.py:32-43 | equal coordinates mean folded, for the thumb and for the other fingers |
| `GestureRecognition.HandednessIsMirroring` | src/detection/gesture_recognition.py:32-35 | only a hand labelled exactly "Right" uses `x[4] < x[3]`; any other label gives the same states as the mirrored hand labelled "Right" |
| `GestureRecognition.Classify` | src/detection/gesture_recognition.py:69-96 | the rule table in order; a fallback count is the number of raised fingers and at least 1; `FistAndOpenHand`, `ExactRules` and `FallbackCountsFingers` state over all five-entry vectors which vector each gesture comes from |
| `GestureRecognition.Label` | src/detection/gesture_recognition.py:73-96 | the text of each gesture; `FallbackLabel` states the count label is the digit and " Fingers", and `LabelsDistinct` that different gestures get different texts |
| `GestureRecognition.RecognizeGesture` | src/detection/gesture_recognition.py:48-96 | `recognize_gesture`: the label of the classified gesture; `LabelsDistinct`, `RecognizeExamples` and `RecognizeCountedExamples` state what it returns |
| `GestureRecognition.CountUp` | src/detection/gesture_recognition.py:69 | the number of raised fingers is at most the length of the vector |
| `GestureRecognition.Decimal` | src/detection/gesture_recognition.py:96 | a count below ten is written as its single digit |
| `GestureRecognition.CountUpZero` | src/detection/gesture_recognition.py:69-73 | the count is zero exactly when every entry is False |
| `GestureRecognition.CountUpAll` | src/detection/gesture_recognition.py:69-89 | the count equals the length exactly when every entry is True |
| `GestureRecognition.FistAndOpenHand` | src/detection/gesture_recognition.py:72-89 | of the 32 vectors, only all-False is "Fist" and only all-True is "Open Hand" |
| `GestureRecognition.ExactRules` | src/detection/gesture_recognition.py:76-93 | "Thumbs Up", "Pointing", "Peace Sign" and "Rock On" each come from exactly their own vector |
| `GestureRecognition.FallbackCountsFingers` | src/detection/gesture_recognition.py:69-96 | every vector outside those six gets the count label, with its number of True entries, between 1 and 4 |
| `GestureRecognition.FallbackLabel` | src/detection/gesture_recognition.py:96 | the count label is the digit followed by " Fingers" |
| `GestureRecognition.LabelsDistinct` | src/detection/gesture_recognition.py:48-96 | two vectors get the same label exactly when they get the same gesture |
| `GestureRecognition.RecognizeExamples` | src/detection/gesture_recognition.py:72-89 | all fingers down gives "Fist", the thumb alone "Thumbs Up", all fingers up "Open Hand" |
| `GestureRecognition.RecognizeCountedExamples` | src/detection/gesture_recognition.py:69-96 | index, middle and ring up gives "3 Fingers"; index and little up gives "Rock On" |

## Findings

| source | as written | input that shows it | evidently intended | confidence | as-written member | corrected member |
|---|---|---|---|---|---|---|
| src/camera/esp32_stream.py:83-94 | the buffer is trimmed only inside the `header_end != -1` branch, so a boundary with no header terminator before it stays at the front of the buffer and is found first again on every later chunk | a body that begins with the separator `\r\n--frame\r\n` itself, as multipart writers that put the separator before each part produce: the bytes before the first boundary are empty, and no frame is ever returned | drop the malformed part and continue with the bytes after the boundary | not executed | `Esp32Stream.LeadingBoundaryNeverYields` | `Esp32Stream.CutPartSkipping` |

`ESP32CamStream.Read` keeps the behaviour as written. The corrected cut and `SkippingRecoversFromLeadingBoundary` stand beside it.

## Left out

- Network I/O is not modelled. `requests.get`, `iter_content(chunk_size=1024)`, `requests.post` and their exceptions become inputs: a `ConnectOutcome`, a sequence of chunks and an `HttpOutcome`. The 1024-byte bound on a chunk is not imposed.
- `cv2.imdecode` and numpy are not modelled. Decoding is a function parameter of `Read`, and pixel frames are a type parameter.
- `Esp32Stream.ESP32CamStream.Read`: an exception raised by the iterator is modelled as the end of the chunk sequence. Both give `(False, None)`, and a generator that raised is finished. The decoder is assumed not to raise.
- `Esp32Stream.ESP32CamStream.Release` does not close the connection; it only clears the field. In the source, `release` closes the response, so a later `read` fails in `next` and returns `(False, None)`. The model does not capture this: its `Read` after `Release` still draws on the remaining chunks.
- Printing and the traceback output are not modelled.
- `Config.Lower` lowercases ASCII letters only. Python's Unicode `lower()` maps no other character to the letters of `true`, `1` or `yes`, so the flag's value is the same.
- `load_dotenv` and `os.getenv` become `Option<string>` inputs. The other settings in `config.py` are inert literals and are not modelled.
- `CameraManager.InitializeCamera` does not model the capture objects themselves. On fallback the ESP32 stream object is dropped without `release`, and the model does not track it.
- `GestureControl.GestureController.SendGestureCommand` uses integer ticks instead of `time.time()` floats. `CONTROL_URL`, `GESTURE_COMMANDS`, `GESTURE_DEBOUNCE` and `HTTP_TIMEOUT` are constructor parameters, because `config.py` does not define them.
- `GestureControl.DebounceSpacing` assumes a non-negative debounce interval. With a negative interval the source promises no spacing.
- `GestureControl.SendsAfterDebounce` assumes a non-negative debounce interval, as `DebounceSpacing` does.
- `GestureControl.TimestampNeverDecreases` assumes a clock that never goes backwards, and a start no later than the first call.
- `GestureRecognition.CountFingers` requires at least 21 landmarks, the number MediaPipe Hands always gives. Coordinates are integers, since only their order is compared.
- `recognize_gesture` is deterministic and total because `Classify` is a Dafny function. No separate lemma states it.
- Framing is not claimed to be independent of how the bytes are split into chunks. As written it is not: one boundary is handled per chunk (`SecondPartWaitsForNextChunk`), and a malformed first part stalls the stream (`MalformedPartStallsForever`).
- Not modelled at all:
  - `webcam_recognition.py`, `hand_detection.py`, `combined_detection.py` and `face_detection.py`: detection, drawing and window loops;
  - `src/detection/face_detector.py` and `src/detection/hand_detector.py`: wrappers over OpenCV and MediaPipe;
  - the package `__init__.py` files: re-exports only.
