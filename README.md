# Face-recognition gate controller: a Dafny model of its control core

The program reads a motion-JPEG stream from an ESP32 camera and cuts
frames out of it. It runs face recognition on each frame and sends
"pass" or "failed" over UART to a K64F board that drives a gate. This
project models the three pieces of `Facial_Recognition_Software.py` that
hold logic of their own, and the loop that connects them:

- **Demux** (`demux.dfy`): the marker search and cut in
  `fetch_frames_from_esp32`. `Find` is Python's `bytes.find`. `Step` does
  one search for the JPEG start-of-image marker `FF D8` and one for the
  end-of-image marker `FF D9` (ITU-T T.81, Annex B.1.1.3). Both searches
  start at index 0, independently of each other. When both markers are
  present, `Step` cuts the Python slice `buf[a:b+2]` and keeps
  `buf[b+2:]`.
- **Throttle** (`throttle.dfy`): `send_command_to_k64f`. The class
  `CommandSender` holds the mutable table `last_sent`, which starts as
  `{"pass": 0, "failed": 0}`. Its method `Send` takes the clock reading
  `now` and returns the wire string handed to the serial write, or None
  when the command is suppressed. `Decide` is the same step as a
  function. `Replay` runs a sequence of send attempts through it.
- **Recognition** (`recognition.dfy`): the per-face rule of
  `recognize_face`. Each face is a vector of match flags, one per known
  face, plus the clock reading taken when its command is sent. `Judge`
  names the face after the first true flag and sends "pass", or names it
  "Unknown" and sends "failed". `Recognize` is the loop over the faces
  that calls the sender.
- **Stream** (`stream.dfy`): the receive loop. Each pass appends one
  chunk and makes one cut attempt. If a frame was cut, the faces of the
  decoded frame go through the rule and the sender, and then the quit
  key is read. `Iterate` and `Loop` specify the loop, and the method
  `FetchFrames` runs it over a `CommandSender` object.

The model keeps these quirks of the code:

- At most one frame is cut per chunk read; complete frames left in the
  buffer wait for the next chunk.
- The end marker is searched from index 0, independently of the start
  marker. When an end marker comes first, the cut frame is empty and every
  byte through that end marker is dropped. The image decoder raises an
  error on that empty frame, nothing catches it, and the receive loop ends
  there.
- A command is sent for each face: a frame with one matched and one
  unmatched face tries to send both "pass" and "failed".
- The table starts at 0, so with small clock readings a first "pass" at
  time 0 is suppressed (see `StartUpScenario`).
- The time is recorded before the write is attempted, so a failing write
  still starts the cooldown.

## Model

| member | source | states |
|---|---|---|
| `Demux.Find` | Facial_Recognition_Software.py:80-81 | The result is -1 exactly when the marker does not occur; otherwise the marker occurs at the result and at no earlier index. |
| `Demux.Step` | Facial_Recognition_Software.py:80-85 | The buffer kept is a suffix of the buffer searched. It is the whole buffer when no frame is cut, and at least two bytes shorter when one is. |
| `Demux.StepWaitsForBothMarkers` | Facial_Recognition_Software.py:79-83 | No frame is cut exactly when one of the two markers is missing; then the grown buffer is kept whole. |
| `Demux.StepFrameIsDelimited` | Facial_Recognition_Software.py:80-84 | When the first start marker precedes the first end marker, the frame is `buf[a..b+2]`. It starts with `FF D8`, ends with `FF D9`, is at least 4 bytes long, and holds no other end marker. |
| `Demux.StepKeepsTail` | Facial_Recognition_Software.py:84-85 | After a cut, the old buffer is `buf[..b+2]` followed by the new buffer, so no byte after the end marker is lost. The buffer shrinks by exactly `b+2`, and the frame is a suffix of the dropped prefix. |
| `Demux.Dropped` | Facial_Recognition_Software.py:84-85 | The bytes a pass removes from the front of the buffer. The buffer searched is these bytes followed by the buffer kept. They are empty when nothing is cut, and a frame that is cut lies at their end. |
| `Demux.StepEndBeforeStart` | Facial_Recognition_Software.py:80-85 | The frame is empty exactly when the first end marker comes before the first start marker. In that case everything through that end marker is dropped, and the start marker survives in the buffer. |
| `Demux.StepOfLeadingFrame` | Facial_Recognition_Software.py:80-85 | A buffer that begins with a complete frame (start marker first, end marker last, no other end marker, at least 4 bytes) gives up exactly that frame and keeps every byte after it. |
| `Demux.StepCutsOneFrameAtATime` | Facial_Recognition_Software.py:78-85 | A buffer that begins with two complete frames yields only the first in one pass; the second stays at the front of the buffer and is what the next pass yields. |
| `Demux.StrayEndMarkerYieldsEmptyFrame` | Facial_Recognition_Software.py:80-84 | With a stray end marker in front of two complete frames, `FF D9 FF D8 FF D9 FF D8 FF D9`, the pass yields an empty frame and drops only the stray marker. |
| `Throttle.Lower` | Facial_Recognition_Software.py:34 | The lower-case key has the command's length and no upper-case ASCII letter. Each upper-case letter becomes its lower-case partner, and every other character is kept. |
| `Throttle.LowerIsIdempotent` | Facial_Recognition_Software.py:34 | Lower-casing a key again changes nothing. |
| `Throttle.Decide` | Facial_Recognition_Software.py:31-43 | A command is written iff its lower-case form is not a table key, or at least 8 has passed since the time recorded for that key. The wire string is `command + "\n"`. Only that key's entry can change, and it becomes `now` when the command is written. The set of keys never changes. |
| `Throttle.CommandSender.constructor` | Facial_Recognition_Software.py:29 | The table starts as `{"pass": 0, "failed": 0}`. |
| `Throttle.CommandSender.Send` | Facial_Recognition_Software.py:31-43 | The returned wire string and the new table are those given by `Decide` on the old table. |
| `Throttle.Replay` | Facial_Recognition_Software.py:29-38 | A run of attempts yields one outcome per attempt and keeps the table's key set. |
| `Throttle.ReplayWiresAreCommandLines` | Facial_Recognition_Software.py:40 | Every string written is the attempted command followed by a newline. |
| `Throttle.ReplayConcat` | Facial_Recognition_Software.py:29-38 | Running two batches of attempts one after the other on the global table equals running them as one batch. |
| `Throttle.ReplayNeverLowers` | Facial_Recognition_Software.py:36-38 | A recorded time never moves backwards. |
| `Throttle.ReplayRecordsSend` | Facial_Recognition_Software.py:38 | Once a command with a table key has been written at time t, the time recorded for that key stays at least t. |
| `Throttle.CooldownSpacing` | Facial_Recognition_Software.py:28-38 | Any two commands written under the same table key are at least 8 apart. This holds even if the clock readings are not monotonic. |
| `Throttle.UnknownCommandsPassThrough` | Facial_Recognition_Software.py:34-40 | Commands whose lower-case form is not a key are all written and leave the table unchanged. |
| `Throttle.StartUpScenario` | Facial_Recognition_Software.py:28-38 | From the start-up table: "pass" at 0 is suppressed, "pass" at 8 is written, "pass" at 13 is suppressed, and "failed" at 17 is written. |
| `Recognition.FirstTrue` | Facial_Recognition_Software.py:58-59 | Returns None exactly when no flag is true; otherwise the index of the first true flag. |
| `Recognition.Judge` | Facial_Recognition_Software.py:55-64 | The command is "pass" iff some flag is true, and "failed" otherwise. The name is that of the first matching known face, or "Unknown" when nothing matches. |
| `Recognition.Verdicts` | Facial_Recognition_Software.py:53-60 | One verdict per face, in order, each the face's `Judge` result. |
| `Recognition.Attempts` | Facial_Recognition_Software.py:53-64 | One send attempt per face, in order, stamped with that face's clock reading. It is "pass" iff the face matched. |
| `Recognition.NoFacesNoCommand` | Facial_Recognition_Software.py:53-64 | A frame with no faces attempts nothing and leaves the table unchanged. |
| `Recognition.AttemptsOfMixedPair` | Facial_Recognition_Software.py:53-64 | A matched face followed by an unmatched one attempts "pass" and then "failed". |
| `Recognition.MixedFrameSendsBoth` | Facial_Recognition_Software.py:53-64 | In that frame, with both cooldowns elapsed, both "pass\n" and "failed\n" are written. |
| `Recognition.Recognize` | Facial_Recognition_Software.py:45-70 | Returns each face's verdict, in order. The outcomes and the new table are those of replaying the frame's attempts from the old table. |
| `Stream.Iterate` | Facial_Recognition_Software.py:78-96 | Without both markers, a pass only appends the chunk. A pass adds at most one frame and never removes one. The buffer stays a suffix of the old buffer plus the chunk. The loop stops only after a pass that cut a frame, either on the quit key or because the frame was empty. An empty frame aborts the run before any face is judged, leaving the table and the wire log as they were. A pass that cuts a frame appends exactly that frame and keeps exactly the buffer the cut leaves. If the frame is non-empty, the loop stops exactly when the quit key was pressed. |
| `Stream.Loop` | Facial_Recognition_Software.py:78-96 | Once ended, the loop reads no further chunk. The table keeps its keys over a whole run. A run that aborts has stopped, and its last frame is the empty one. |
| `Stream.LoopStoppedPrefix` | Facial_Recognition_Software.py:95-96 | Once the quit key has ended the loop, later chunks change nothing. |
| `Stream.LoopOneFramePerChunk` | Facial_Recognition_Software.py:78-85 | A run yields at most one frame per chunk read and only appends frames. A run that did not stop has read every chunk. |
| `Stream.LoopKeepsUnconsumedBytes` | Facial_Recognition_Software.py:76-85 | The final buffer is a suffix of all bytes received: no byte is invented, and bytes leave the buffer only from its front. |
| `Stream.LoopCutsCoverInput` | Facial_Recognition_Software.py:78-85 | Over a whole run, the starting buffer followed by every chunk read equals the stretches removed by the cuts, one after the other, followed by the final buffer. |
| `Stream.LoopFramesFromCuts` | Facial_Recognition_Software.py:83-85 | There is one removed stretch per frame, and each frame lies at the end of its own stretch. With `LoopCutsCoverInput`, this means no byte of the input is in two frames. |
| `Stream.IterateIsReplay` | Facial_Recognition_Software.py:83-92 | One pass changes the table and the wire log exactly as replaying that pass's send attempts. |
| `Stream.LoopIsOneReplay` | Facial_Recognition_Software.py:78-92 | Over a whole run, the final table and the wire log are those of one replay of all the run's attempts. |
| `Stream.LoopCooldownSpacing` | Facial_Recognition_Software.py:78-92 | Across frames, two attempts of a run under the same table key that both reach the wire are at least 8 apart. |
| `Stream.FetchFrames` | Facial_Recognition_Software.py:72-96 | The imperative loop returns what `Loop` gives: the frames, the wire strings, the buffer, the chunk count and whether the decoder aborted the run. It leaves the sender's table as `Loop` says. |

## Left out

- The HTTP session and `iter_content` (lines 74-75, 78) are not modelled. Each chunk is an input, of any size rather than at most 1024 bytes. A failing stream, which raises and ends the program, is not modelled either.
- Opening the serial port (line 14), `ser.write` (line 40) and `ser.close` (line 102) are I/O. The write is represented by the wire string handed to it. Its success or failure is not an input, because nothing in the state depends on it: the table is updated before the write, and the exception is caught and printed.
- Loading the pickle (lines 17-22) is not modelled. The known names are a parameter, and a missing file corresponds to an empty list.
- The MTCNN detector (line 25) is created but never used.
- `cv2.imdecode`, `cvtColor`, the face library's `face_locations`, `face_encodings` and `compare_faces`, and the drawing and display calls are not modelled. Decoding and detection together become `Tick.view`: None when the decoder rejects a non-empty frame, otherwise the faces with their match flags. The error the decoder raises on an empty frame is modelled as the run ending with `aborted` set. What happens afterwards is not modelled: the program ends without running lines 102-103. `waitKey` becomes `Tick.quit`. Verdict names are returned but nothing is drawn.
- `time.time()` returns a float. Clock readings here are integers supplied with each face.
- `Throttle.Lower` implements `str.lower()` for ASCII letters only. The program only ever sends "pass" and "failed".
- The docstrings say 5 seconds (lines 27 and 32). The model uses the constant 8 (line 28).
- `print` calls and `cv2.destroyAllWindows` (line 103) are not modelled.
- Encode_Known_Faces.py, the enrollment script, is not part of this model. It is directory listing, image loading, face encoding and a pickle dump.
