# build_watcher in Dafny

A model of the build watcher: a small Go program that polls a Jenkins job's
last-build status and shows it on an RGB LED driven over a USB serial line.
Three pieces of `build_watcher.go` are modelled and proved:

- **Indicator writer** (`updateLed`, module `Indicator`). `CommandFor` maps a
  build result to the 4-byte ASCII command of the LED controller: `SUCCESS` to
  green `"0F0\n"`, `FAILURE` to red `"F00\n"`, every other string, the empty
  one included, to amber `"FF0\n"`. The serial port is a class `SerialPort`
  holding the sequence of buffers written to it. `UpdateLed` writes green once
  and then one command per received result. The channel it reads from is
  modelled as a finite sequence: a prefix of the unbounded receive loop.
  `LedTrace` is the exact sequence written. The bytes on the line are the
  concatenation of the writes (`Stream`). Cutting them into 4-byte frames
  (`Frames`) gives back the writes exactly.
- **Device discovery** (`pickSerialDevice`, module `DeviceLocator`). The scan
  goes over a given directory listing in order. It returns `"/dev/" + name` for
  the first name that starts with `ttyUSB` or `tty.usbserial`. When no name
  matches it returns the error `"No USB-Serial device found"`.
  `FirstSerialDevice` specifies it. `PickSerialDevice` is the loop with its
  early return.
- **Status poller** (`fetchJenkinsStatus`, module `StatusPoller`). Each request
  ends in one of three abstract outcomes:
  - a transport error: nothing is published and the loop polls again;
  - an answer that does not decode: nothing is published and the loop ends;
  - a decoded `BuildStatus`: its `result` is published.

  `FetchJenkinsStatus` runs the loop over a finite sequence of outcomes.
  `Published` specifies what reaches the channel.
- **Wiring** (module `Watcher`). The unbuffered channel has a single producer
  and a single consumer. So the writer receives exactly what the poller
  published, in order. `RunWatcher` composes the two loops one after the other.
  The lemmas state what the LED shows for a run of requests:
  - it freezes after an answer that does not decode;
  - a failed request leaves it unchanged.

`Results` holds the `Option` and `Result` datatypes used by the modules.

Two behaviours of the code that a reader might expect otherwise:
- After a transport error the code polls again at once (`continue` at line 42
  skips the 60-second sleep). It does not wait for the next interval.
- An unreadable `/dev` ends the process through `log.Fatal` (line 75). It does
  not produce the "no device" error.

## Model

| member | source | states |
|---|---|---|
| Indicator.CommandFor | build_watcher.go:61-68 | the mapping is total and every result is a well-formed 4-byte command (three hex digits and `'\n'`); green exactly for `"SUCCESS"`, red exactly for `"FAILURE"`, amber exactly for every other string, `""` included |
| Indicator.Commands | build_watcher.go:59-68 | one command per received result, same length, the i-th command is the mapping of the i-th result |
| Indicator.LedTraceAppend | build_watcher.go:59-69 | the writer's trace grows by exactly the command of each newly received result |
| Indicator.LedTraceShape | build_watcher.go:57-70 | for n results the writer makes n + 1 writes: green first, then the i-th result's command at position i + 1, each a well-formed command |
| Indicator.SerialPort.Write | build_watcher.go:58 | a write is recorded after all earlier ones and its bytes follow theirs on the line |
| Indicator.UpdateLed | build_watcher.go:57-70 | the port's writes become the old writes followed by green and then the mapped results in order, and its bytes grow by exactly their concatenation |
| Indicator.Stream | build_watcher.go:58-67 | a stream of 4-byte writes is 4 bytes per write long |
| Indicator.StreamAppend | build_watcher.go:58-67 | two batches of writes put their bytes on the line one after the other |
| Indicator.Frames | build_watcher.go:58-67 | splitting a stream into 4-byte frames yields a quarter as many frames as bytes |
| Indicator.FramesOfStream | build_watcher.go:58-67 | splitting the bytes of 4-byte writes into 4-byte frames gives back exactly the writes |
| Indicator.LedStreamDecodes | build_watcher.go:57-70 | after n results the line holds 4 * (n + 1) bytes, and the device reads back the writer's n + 1 commands, none dropped, duplicated or reordered |
| Indicator.WriterScenarios | build_watcher.go:61-68 | a failure gives red after the start-up green; a running build (empty result) gives amber; unknown results give amber |
| DeviceLocator.FirstSerialIndex | build_watcher.go:79-84 | the scan stops at an entry with one of the two prefixes, or at the end of the listing, and no earlier entry has either prefix |
| DeviceLocator.FirstSerialDevice | build_watcher.go:79-85 | the result is an error exactly when no entry has either prefix, and that error is "No USB-Serial device found"; a success comes from the first matching entry |
| DeviceLocator.PickSerialDevice | build_watcher.go:79-85 | the in-order scan with early return yields exactly the specified first-match result |
| DeviceLocator.FirstMatchIsPicked | build_watcher.go:79-83 | conversely, when entry k has a prefix and no earlier entry does, the result is `"/dev/"` followed by entry k |
| DeviceLocator.PickedPathIsListed | build_watcher.go:81-82 | a successful path starts with `"/dev/"`, and its remainder is the first listed entry that carries one of the two prefixes |
| DeviceLocator.ScanSplits | build_watcher.go:79-85 | entries after the first match never affect the result, and a stretch without matches is skipped |
| DeviceLocator.LinuxScenario | build_watcher.go:79-83 | `[ttyUSB3, ttyACM0]` gives `/dev/ttyUSB3` |
| DeviceLocator.SortedListingScenario | build_watcher.go:79-83 | on the name-sorted listing `[ttyS0, ttyUSB0, ttyUSB1]` the scan skips `ttyS0` and gives `/dev/ttyUSB0` |
| DeviceLocator.AppleScenario | build_watcher.go:79-83 | the macOS prefix `tty.usbserial` is recognised |
| DeviceLocator.NoDeviceScenario | build_watcher.go:79-85 | `[ttyACM0, ttyusb0]` gives the error: no entry has either prefix, and the match is case-sensitive |
| StatusPoller.PollStep | build_watcher.go:36-54 | one iteration: a transport error publishes nothing and continues, an undecodable body publishes nothing and stops, a decoded body publishes exactly its `result` and continues |
| StatusPoller.FirstMalformed | build_watcher.go:47-50 | the position of the first undecodable answer, with none before it |
| StatusPoller.FetchJenkinsStatus | build_watcher.go:29-55 | the loop publishes exactly the specified results in order, and it ends exactly when some answer does not decode |
| StatusPoller.PublishedBeforeStop | build_watcher.go:36-54 | what is published is the `result` of every decoded answer before the first undecodable one, in order, and nothing else |
| StatusPoller.PublishedSplits | build_watcher.go:36-54 | a later stretch of requests publishes something only if the earlier stretch did not end the loop |
| StatusPoller.FreezeAfterMalformed | build_watcher.go:47-50 | after an undecodable answer no later request publishes anything |
| StatusPoller.TransportErrorPublishesNothing | build_watcher.go:40-43 | a failed request contributes nothing to what is published |
| Watcher.RunWatcher | build_watcher.go:114-117 | running both workers writes green followed by the command of every published result, and reports whether the poller ended |
| Watcher.IndicatorFollowsBuilds | build_watcher.go:51-68 | the LED receives green and then one command per decoded answer before the first undecodable one, in order |
| Watcher.IndicatorFreezes | build_watcher.go:47-50 | once an answer fails to decode, later requests write nothing more to the LED |
| Watcher.TransportErrorKeepsColour | build_watcher.go:40-43 | a failed request writes no command, so the LED keeps its colour |
| Watcher.WatcherScenario | build_watcher.go:40-68 | failure, refused connection, running build, garbled answer, success: the LED is sent green, red, amber and nothing more |

## Left out

- Reading `/dev` (build_watcher.go:73-77): the listing is a parameter. `log.Fatal` ends the process, so the error return at line 76 is never reached.
- `ioutil.ReadDir` (build_watcher.go:73) returns the entries sorted by name, so the program only ever scans a sorted listing and picks the matching name that sorts first (`ttyUSB0` before `ttyUSB1`, and `tty.usbserial*` before `ttyUSB*` since `'.'` sorts before `'U'`). The model accepts a listing in any order, the sorted one included; it does not state the sorted-listing consequence as a property.
- Go strings are byte sequences; the model uses Dafny's `string` (a sequence of characters). Every constant compared or written (`"SUCCESS"`, `"FAILURE"`, the two prefixes, `"/dev/"`, the commands) is ASCII, so one byte is one character here.
- `Frames` cuts the line into 4-byte pieces: it states that the writes can be recovered from the bytes, not how the device's firmware parses them (the firmware is not part of this model).
- HTTP (build_watcher.go:31-45): the transport that skips TLS verification, basic authentication, the request and reading the body are network I/O. Each request is reduced to its outcome: a transport error, an undecodable body or a decoded `BuildStatus`.
- The ignored error of `http.NewRequest` (line 37) is not modelled; with a bad URL the Go program would fail at `SetBasicAuth`. The ignored error of `ioutil.ReadAll` (line 45) is folded into the outcome of decoding whatever was read.
- JSON decoding (build_watcher.go:47, 93) is a library call. A body without a `result` field decodes to the empty result. The model receives that as `Parsed` with `result == ""`.
- The response body is closed only after a publish (line 52). The leak on the stop path is a resource matter and is not modelled.
- Loading `./settings.json` and its panics (build_watcher.go:88-96) are file I/O and process abort. So are `main`'s panics on discovery or port-open failure (lines 101-110).
- Opening the serial port at 9600 baud and closing it (build_watcher.go:106-110, 122) are hardware I/O. `SerialPort` starts from an empty record of writes.
- Serial write errors are ignored by the source (build_watcher.go:58-67). `SerialPort.Write` always records the write.
- `time.Sleep` (build_watcher.go:53, 112) is timing only.
- Goroutines, the unbuffered channel and the `select` on `quit` (build_watcher.go:114-121) are concurrency. The channel is a finite sequence, and the two loops run one after the other in `RunWatcher`. Back-pressure and interleaving are not captured. Only what is sent and its order are captured.
- UpdateLed: models a finite prefix of the unbounded receive loop, not the loop that never returns.
- FetchJenkinsStatus: models a finite prefix of the unbounded polling loop, given as the sequence of request outcomes.
