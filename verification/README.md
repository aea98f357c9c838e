# MJPEG stream core of the ESP32-S3 QR scanner camera server

This project models the streaming core of the camera web server in
`ESP32S3QRSCANNER/app_httpd.cpp`, and proves properties of that model. The core has three parts:

- **Rolling-average filter.** This covers `ra_filter_t`, `ra_filter_init` and `ra_filter_run`.
  The filter is a fixed-capacity circular buffer of `int` frame intervals. It keeps a running sum,
  a write cursor that wraps, and a sample count that saturates. Each run returns `sum / count`.
  Without a sample buffer it passes every input through. There are two models:
  - `RollingAverage` models it as values: a `Filter` record and pure `Init`, `Run` and `Feed`.
  - `RaFilterObject.RaFilter` models it as the C keeps it: a record over a heap array, updated in
    place. Each of its methods is proved to act exactly like the value model.
  - Both models return the corrected division: signed, truncating toward zero. The source divides
    by an unsigned count (see Findings).
- **Frame pipeline and buffer ownership.** This is one pass of the `while (true)` loop in
  `stream_handler`. It captures a frame. A JPEG frame is sent from the camera buffer. Any other
  frame is re-encoded into a heap buffer, and the camera frame is returned at once. Three chunks
  follow (boundary, part header, payload), each sent only if the previous one succeeded. Cleanup
  then returns the camera frame or frees the heap buffer.
  - The camera, the encoder, the transport and the clock are foreign calls. Their outcomes are
    inputs (`IterationInput`).
  - The calls the handler makes are recorded as a trace of `Event`s.
  - `Stream.Iteration` follows the C statement by statement. `Stream.Expected` is an independent
    case-by-case reference. They are proved equal.
  - Ownership is checked by replaying the trace against the set of held buffers (`Stream.Balanced`).
  - `Stream.StreamHandler` adds the session around the loop. The static `last_frame` is seeded
    only when it is 0, moved after each successful frame, and reset to 0 when the loop exits.
    Each frame interval in milliseconds is fed to the shared filter.
- **Multipart framing.** This covers the boundary constants and the per-part header
  `Content-Type: image/jpeg\r\nContent-Length: %u\r\nX-Timestamp: %d.%06d\r\n\r\n`.
  - `Decimal` renders `%u`, `%d` and `%06d` as strings and provides readers that invert them.
  - `Framing.PartHeader` builds the header. It is proved to parse back to its three fields and
    to fit the capacity of 128 that `snprintf` is given, so `snprintf` never truncates it. The
    buffer itself is declared as `char *part_buf[128]`, 128 pointers, so its storage is larger than
    that capacity. Only the capacity matters to the model.
  - `Framing.PartBoundary`, `Framing.StreamContentType` and `Framing.StreamBoundary` are the
    boundary token, the response content type and the boundary chunk of app_httpd.cpp:40-42.

C integer semantics for the 32-bit target are in `CInt`: 32-bit ranges, conversions, and
division that truncates toward zero.

## Model

| member | source | states |
|---|---|---|
| RollingAverage.Init | ESP32S3QRSCANNER/app_httpd.cpp:61-74 | On success: `size` slots, all zero, with cursor, count and sum zero, and the invariant holds. When `malloc` fails: the record stays zeroed and has no storage. Storage exists exactly when allocation succeeded. |
| RollingAverage.Run | ESP32S3QRSCANNER/app_httpd.cpp:76-92 | Without storage: the input comes back and the record is unchanged. Otherwise: the slot under the cursor takes the sample, the cursor advances modulo `size`, and the count grows up to `size` (so it is at least 1). The result is the new sum divided by the count, truncating toward zero (the corrected division, see Findings). The invariant (sum of all slots, cursor below size, count at most size) is preserved. |
| RollingAverage.InitFailurePassesThrough | ESP32S3QRSCANNER/app_httpd.cpp:63-81 | After a failed allocation the record is all zero with no storage, and every later sample is returned unchanged while the record stays the same. |
| RollingAverage.PassThrough | ESP32S3QRSCANNER/app_httpd.cpp:76-81 | A filter without storage returns any sequence of samples unchanged and is never modified. |
| RollingAverage.History | ESP32S3QRSCANNER/app_httpd.cpp:82-90 | After samples `xs` from a fresh filter: the cursor is the length of `xs` modulo n, the count is the smaller of that length and n, and each slot holds the latest sample written to it, so the oldest sample is the one overwritten next. The sum is the sum of that many latest samples. |
| RollingAverage.AverageOfWindow | ESP32S3QRSCANNER/app_httpd.cpp:82-91 | The k-th value returned is the truncated mean of the last `min(k+1, n)` samples fed so far. |
| RollingAverage.ConstantInput | ESP32S3QRSCANNER/app_httpd.cpp:87-91 | A constant input `c` yields `c` on every call, from the first one on, for either sign of `c`. |
| RollingAverage.AverageAsWritten | ESP32S3QRSCANNER/app_httpd.cpp:91 | `sum / count` with an `int` sum and a `size_t` count, as the 32-bit target evaluates it. It agrees with truncating division whenever the sum is not negative. |
| RollingAverage.AsWrittenNegativeSum | ESP32S3QRSCANNER/app_httpd.cpp:91 | With a negative sum and a count of 2 or more, the division as written gives a positive result. The true mean is not positive. |
| RollingAverage.NegativeConstantAsWritten | ESP32S3QRSCANNER/app_httpd.cpp:82-91 | After the samples -5, -5 the sum is -10 and the count is 2. The division as written returns 2147483643. The corrected filter returns -5 both times. |
| RaFilterObject.RaFilter.constructor | ESP32S3QRSCANNER/app_httpd.cpp:59 | The static record starts all zero with no storage, so a run before `ra_filter_init` passes its input through. |
| RaFilterObject.RaFilter.Init | ESP32S3QRSCANNER/app_httpd.cpp:61-74 | The in-place record equals the value model's `Init`. On success its array is freshly allocated and zeroed. It reports failure exactly when `malloc` failed. |
| RaFilterObject.RaFilter.Run | ESP32S3QRSCANNER/app_httpd.cpp:76-92 | The in-place update of the record and its array, and the value returned, are exactly those of the value model's `Run`. So the value returned is the corrected signed division, truncating toward zero, not the unsigned division of line 91 (see Findings). The invariant is preserved, and the record keeps the same array. |
| CInt.TruncDiv | ESP32S3QRSCANNER/app_httpd.cpp:180 | C division by a positive divisor: the remainder lies strictly between minus the divisor and the divisor, and it has the sign of the dividend. |
| Decimal.Unsigned | ESP32S3QRSCANNER/app_httpd.cpp:43 | `%u` renders a number as a non-empty string of decimal digits. It begins with `0` only for the number 0, so there is no leading zero. |
| Decimal.Signed | ESP32S3QRSCANNER/app_httpd.cpp:43 | `%d` renders an integer as a non-empty string. It begins with `-` exactly when the integer is negative, and then the rest is the `%u` rendering of its magnitude. Otherwise it is the `%u` rendering of the integer itself. |
| Decimal.ZeroPadded6 | ESP32S3QRSCANNER/app_httpd.cpp:43 | `%06d` renders an integer in at least six characters: exactly six when its `%d` rendering is shorter, and otherwise as long as that rendering. It begins with `-` exactly when the integer is negative. |
| Decimal.ReadUnsignedOfUnsigned | ESP32S3QRSCANNER/app_httpd.cpp:43 | The `%u` rendering is read back to the same number, and the text after it is left intact. |
| Decimal.ReadSignedOfSigned | ESP32S3QRSCANNER/app_httpd.cpp:43 | The `%d` rendering, with its sign, is read back to the same integer. |
| Decimal.ReadSignedOfZeroPadded6 | ESP32S3QRSCANNER/app_httpd.cpp:43 | The `%06d` rendering (sign, then zeros up to width six, then digits) is read back to the same integer. |
| Framing.PartHeader | ESP32S3QRSCANNER/app_httpd.cpp:43 | The part header starts with `Content-Type: image/jpeg\r\nContent-Length: ` and ends with the blank line `\r\n\r\n`. Its length is 62 fixed characters plus the lengths of the `%u`, `%d` and `%06d` renderings of its three fields. |
| Framing.ParsePartHeaderRoundTrip | ESP32S3QRSCANNER/app_httpd.cpp:43 | A reader of the part header recovers the content length and both timestamp fields exactly. |
| Framing.Snprintf | ESP32S3QRSCANNER/app_httpd.cpp:153 | `snprintf` with capacity `cap` stores a prefix of the text shorter than `cap`: the whole text when it fits, and exactly its first `cap - 1` characters otherwise. It returns the full text's length. |
| Framing.PartHeaderFits | ESP32S3QRSCANNER/app_httpd.cpp:153 | For 32-bit length and timestamp fields the header is at most 94 characters. So it fits within the capacity of 128 that `snprintf` is given, and the length `snprintf` returns is the length of the text it stored. |
| Stream.FormatPart | ESP32S3QRSCANNER/app_httpd.cpp:153-154 | The header is formatted into the part buffer without truncation. The first `hlen` bytes, which the header send hands over, are exactly the header text of the part: the send neither cuts the header short nor reads past what was written. |
| Stream.SendPart | ESP32S3QRSCANNER/app_httpd.cpp:147-159 | The three gated sends produce exactly the reference emission: boundary, then header, then payload. Each is attempted only after the previous one returned `ESP_OK`, and the result is that of the last send attempted. |
| Stream.Iteration | ESP32S3QRSCANNER/app_httpd.cpp:118-175 | One pass of the loop body, statement by statement, equals the case-by-case reference `Expected`: the events and the result agree. Cleanup always leaves `_jpg_buf` NULL. When `malloc` does not hand out a held address, the trace is balanced. |
| Stream.ExpectedBalanced | ESP32S3QRSCANNER/app_httpd.cpp:120-170 | On every outcome of the foreign calls in which `malloc` does not return the address of the frame the camera still holds, a buffer is acquired only when not held. It is used only while held, and released exactly once, by the route its owner needs (camera return or `free`). Nothing is held at the end. |
| Stream.ReleasedExactlyOnce | ESP32S3QRSCANNER/app_httpd.cpp:130-170 | A failed capture releases nothing. A JPEG frame is returned to the camera once. Any other frame is returned once, and then its re-encoded buffer, if any, is freed once. Nothing is both returned and freed. |
| Stream.EmissionSends | ESP32S3QRSCANNER/app_httpd.cpp:147-159 | The chunks a part sends are a non-empty prefix of boundary, header, payload. |
| Stream.ChunkDiscipline | ESP32S3QRSCANNER/app_httpd.cpp:120-175 | Nothing is sent exactly when capture or re-encoding failed, and then the result is `ESP_FAIL`. Otherwise the sends are a prefix of the part's chunks in wire order: every send before the last succeeded, a short prefix ends at a failed send, and that send's code is the result. The iteration succeeds exactly when all three chunks were sent and the payload send succeeded. |
| Stream.HeaderAnnouncesPayload | ESP32S3QRSCANNER/app_httpd.cpp:149-158 | The boundary chunk's text is the fixed boundary. Parsing the header chunk's text gives the exact length of the payload chunk that follows it, and the frame's capture time. |
| Stream.SucceedsExactly | ESP32S3QRSCANNER/app_httpd.cpp:147-175 | An iteration ends with `ESP_OK` exactly when a payload exists and all three sends returned `ESP_OK`. |
| Stream.LeadingSuccesses | ESP32S3QRSCANNER/app_httpd.cpp:118-175 | The number of iterations that run before the loop breaks: all of them succeed, and the next one, if any, fails. |
| Stream.ProgressOnSuccess | ESP32S3QRSCANNER/app_httpd.cpp:176-181 | After a successful iteration, `last_frame` moves to that iteration's clock reading. The interval since the previous `last_frame`, divided by 1000 with truncation, becomes the filter's next sample. The trace is extended, and it stays balanced when `malloc` did not hand out a held address in any iteration so far. |
| Stream.ProgressOnFailure | ESP32S3QRSCANNER/app_httpd.cpp:171-175 | A failing iteration completes the trace. The iterations before it are exactly the leading successes. The completed trace is balanced when `malloc` did not hand out a held address in any iteration up to and including this one. |
| Stream.Turn | ESP32S3QRSCANNER/app_httpd.cpp:118-181 | One pass with its bookkeeping returns the reference result. It either advances the session state by one successful frame or ends the session with the completed trace. That trace is balanced when `malloc` did not hand out a held address in any iteration so far. |
| Stream.Serve | ESP32S3QRSCANNER/app_httpd.cpp:118-190 | The loop runs exactly the leading successes and breaks at the first failure, whose code it returns. The trace is that of the iterations run. The filter has been fed every interval of a successful frame. `last_frame` is 0 after a break, and otherwise the last clock reading. The trace is balanced when `malloc` does not hand out a held address in any iteration that ran. |
| Stream.StreamHandler | ESP32S3QRSCANNER/app_httpd.cpp:94-191 | `last_frame` is seeded from the clock only when it is 0. If `httpd_resp_set_type` fails, that code is returned with nothing sent and `last_frame` stays seeded. Otherwise the behaviour is that of `Serve` from the seed. The handler exits exactly when the result is not `ESP_OK`. The trace is balanced when `malloc` does not hand out a held address in any iteration that ran, and it always is when `httpd_resp_set_type` fails, since nothing was sent. |

## Left out

- `generate_qr_codes.py`: a wrapper over a third-party QR library plus file writes, with no logic of its own.
- `index_handler` and its embedded page, `button_handler`, `qr_status_handler`, `parse_get` and the route registration in `startCameraServer`: static content, SD-card I/O through functions that are not visible, and server glue. The filter capacity 20 that `startCameraServer` passes to `ra_filter_init` is kept as `RollingAverage.StreamFilterSize`.
- Internals of `esp_camera_fb_get`, `esp_camera_fb_return`, `frame2jpg`, `httpd_resp_send_chunk`, `httpd_resp_set_type` and `esp_timer_get_time`: foreign code. Their outcomes are inputs. The model assumes that a failed `frame2jpg` leaves `_jpg_buf` untouched.
- `httpd_resp_set_hdr` (the CORS and frame-rate headers) and the `ESP_LOGx` calls: their results are ignored by the handler and they move no buffer.
- The payload bytes themselves: a payload chunk is recorded as its buffer and length.
- RollingAverage.Init: for `sampleSize == 0`, only the case where `malloc(0)` returns NULL is modelled (the result of `malloc(0)` is implementation-defined). A non-NULL block of no slots would make the next `ra_filter_run` write `values[0]` out of bounds and compute `% 0`. The only caller passes 20.
- RollingAverage.Run: does not model 32-bit overflow of `sum` (a signed overflow is undefined in C). Intervals are milliseconds, and 20 of them cannot reach 2^31 in practice.
- Stream.Turn: does not model the narrowing of the 64-bit `frame_time` to the `int` parameter of `ra_filter_run`. Intervals are fed as unbounded integers. Likewise `avg_frame_time` is discarded, as in the source, where its only use is commented out.
- Framing.PartHeader: the seconds field is modelled as a 32-bit `int`, as `%d` reads it. The mismatch with a wider `time_t` argument is not modelled.
- The commented-out floating-point frame-rate log: floating point, and not compiled.
- Concurrent stream connections sharing `ra_filter` and `last_frame`: each handler run is modelled as sequential.
- Stream.StreamHandler: the loop has no exit other than a failure, so a run is modelled over a finite sequence of iteration outcomes. When the outcomes run out before a failure, the handler is reported as still streaming.

Two details of `last_frame` that `Stream.StreamHandler` follows (app_httpd.cpp:103-113):

- `last_frame` is seeded on entry to the handler, before `httpd_resp_set_type` is called, and not
  on the first pass of the loop.
- A failed `httpd_resp_set_type` returns before the loop, so `last_frame` keeps its seeded value.
  Every other exit resets it to 0.

## Findings

| source | as written | input that shows it | evidently intended | confidence | as-written member | corrected member |
|---|---|---|---|---|---|---|
| ESP32S3QRSCANNER/app_httpd.cpp:91 | `return filter->sum / filter->count;` divides an `int` by a `size_t`. On the 32-bit target the sum is converted to `unsigned int` before dividing. | The filter fed the samples -5, -5 has sum -10 and count 2, and returns 2147483643. | The signed mean truncated toward zero, here -5. | Low impact: frame intervals are never negative in practice. Not executed. | RollingAverage.AverageAsWritten, RollingAverage.AsWrittenNegativeSum, RollingAverage.NegativeConstantAsWritten | RollingAverage.Run, RollingAverage.ConstantInput, RaFilterObject.RaFilter.Run |
