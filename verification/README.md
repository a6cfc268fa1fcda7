# Pico W MQTT client: decision logic

This project models the three pieces of pure decision logic in the Pico W MQTT
client (`picow_iot.c`) and proves properties of them in Dafny 4.11:

- **Inbound message reassembler** (`Reassembler`, reassembler.dfy). The announce
  callback `mqtt_pub_start_cb` and the data callback `mqtt_pub_data_cb` act on
  three globals: the 1025-byte `buffer`, `data_in` (the bytes still expected)
  and the 8-bit write offset `data_len`. The offset width is a parameter of the
  model. `U8` is the code as written, where the offset is taken modulo 256. `U16`
  is the corrected counter (see Findings).
  - The transport's framing promise is a precondition: while a message is in
    flight, a chunk is no longer than `data_in`.
  - Under that promise, `data_len + data_in <= 1024` holds in every reachable
    state. So every `memcpy` and the terminator stay inside the buffer.
- **TLS credential selection and connect** (`TlsSetup`, tls_setup.dfy). The
  preprocessor cascade over `CRYPTO_CA`, `CRYPTO_KEY` and `CRYPTO_CERT` becomes a
  function over optional PEM strings. It returns one of four configuration
  requests.
  - `mqtt_test_connect` records the foreign calls it makes, in order.
  - Whether the TLS engine built a configuration, and what
    `mqtt_client_connect` returned, are inputs.
- **Poll loop** (`PollLoop`, poll_loop.dfy). One iteration of the loop in
  `mqtt_run_test` is a transition over the timer, the `subscribed` flag and the
  counters. Its inputs are:
  - two clock readings in microseconds: the one at the top of the iteration,
    and the one taken when the timer is re-armed;
  - the connection flag;
  - the publish call's result.

  The publish-completion callback `mqtt_pub_request_cb` is a second kind of
  event. Trace lemmas run the loop over any sequence of these events.

`types.dfy` (`Types`) holds the shared machine types (`byte`, `uint16/32`),
`Option`, and lwIP's `ERR_OK`.

The counter `counter` grows only when the publish call returns `ERR_OK`
(picow_iot.c:258-263). It does not grow on every attempted publish, and the
model follows the code.

Only accepted publishes are spaced 5000 ms apart. A publish the MQTT engine
rejects leaves the expired timer untouched (picow_iot.c:258-264), so the next
iteration that finds the client connected publishes again, however soon it
comes (`PollLoop.RejectedPublishRetriedAtOnce`). `PollLoop.PublishesAtLeastIntervalApart`
is therefore about accepted publishes, not about attempts.

PEM constants are modelled as the bytes of their C literals, so `strlen` counts
bytes as C does, whatever the encoding of the text.

An announce of 0 bytes never writes a terminator. `data_in` stays 0, so
the data callback ignores every chunk, and the buffer keeps its previous
contents (`Reassembler.EmptyMessageIsNotTerminated`).

## Model

| member | source | states |
|---|---|---|
| Reassembler.Init | picow_iot.c:89-92 | The globals start zeroed, and the zero state satisfies the bounds invariant. |
| Reassembler.Truncate | picow_iot.c:109 | Storing into the offset counter keeps the value modulo the counter's width. A value that fits is kept as it is. |
| Reassembler.Write | picow_iot.c:108 | The copy puts the chunk's bytes at the offset. Every other byte of the buffer is unchanged. |
| Reassembler.Announce | picow_iot.c:94-103 | A length up to 1024 starts a message: `data_in` becomes the length and `data_len` becomes 0. A longer length leaves the whole state unchanged. No announce writes a byte. Either way the bounds invariant holds afterwards. |
| Reassembler.Chunk | picow_iot.c:105-116 | With no message in flight, a chunk changes nothing. Otherwise: `data_in` drops by exactly the chunk's length; the offset advances modulo the offset width (256 as written); the chunk lands at the old offset; a 0 is written at the new offset exactly when `data_in` reaches 0; every other byte is unchanged; the copy stays below index 1024; and the bounds invariant is kept. |
| Reassembler.Run | picow_iot.c:89-116 | After any trace of announces and framed chunks, `data_len + data_in <= 1024` still holds. So no copy and no terminator leaves the 1025-byte buffer. |
| Reassembler.IdleIgnoresChunks | picow_iot.c:105-106 | While no message is in flight, any number of chunks of any length leave the state unchanged. |
| Reassembler.ChunksFill | picow_iot.c:105-112 | If the chunk lengths add up to `data_in` and the offset does not wrap, the chunks are laid out contiguously from the offset and terminated. Earlier bytes are kept. |
| Reassembler.Reassembles | picow_iot.c:94-116 | Take an accepted announce of `n > 0` bytes, followed by chunks totalling `n`, with `n` below the offset modulus. Then `buffer[0..n)` is the concatenated chunks and `buffer[n]` is 0. |
| Reassembler.NarrowReassemblesShortMessages | picow_iot.c:92-112 | As written, every chunking of a message of 1 to 255 bytes is reassembled and terminated. |
| Reassembler.WideReassemblesAllMessages | picow_iot.c:91-112 | With a 16-bit offset, every chunking of every accepted non-empty message (up to 1024 bytes) is reassembled and terminated. |
| Reassembler.NarrowOffsetTruncatesLongMessage | picow_iot.c:92-112 | As written, a text message of 256 to 1024 bytes in one chunk is terminated at offset `n mod 256`, inside the message. Byte `n` is never written. |
| Reassembler.NarrowOffsetScenarioTrace | picow_iot.c:100-112 | As written, chunks of 400, 400 and 200 bytes announced as 1000 end with `data_len` at 232 and a 0 at index 232. |
| Reassembler.NarrowOffsetScenario | picow_iot.c:92-112 | As written, the first 1000 bytes of the buffer are then not the 1000-byte text message. |
| Reassembler.EmptyMessageIsNotTerminated | picow_iot.c:97-112 | After an announce of 0 bytes, no chunk reaches the buffer and no terminator is written. |
| Reassembler.OversizedAfterCompletionIsDiscarded | picow_iot.c:97-106 | An announce over 1024 bytes after a completed message is discarded with all of its chunks. |
| TlsSetup.StrLen | picow_iot.c:178-198 | `strlen` counts the bytes before the first zero byte: none of them is 0, and the byte after them, if any, is 0. |
| TlsSetup.Pem | picow_iot.c:177-198 | A PEM constant is passed as `1 + strlen` bytes: at least 1 and at most its length plus 1, none of the first `size - 1` bytes is 0, and the byte at `size - 1`, if there is one, is 0. The whole text plus terminator is passed if and only if the text holds no zero byte. |
| TlsSetup.Select | picow_iot.c:174-207 | Two-way authentication is chosen if and only if CA, key and cert are all present. Otherwise CA-only is chosen if and only if the CA is present. Otherwise the cert is used as the trust anchor if and only if it is present. Otherwise no credentials are used. Each request carries the right PEM blobs and the empty key password. |
| TlsSetup.ClientCertificateOnlyWithAllThree | picow_iot.c:174-198 | The client presents a certificate if and only if all three constants are present, and that certificate is `CRYPTO_CERT`. |
| TlsSetup.TrustAnchorChoice | picow_iot.c:188-205 | The server is checked against the CA when one is present. With only a cert present, it is checked against that cert, and the client presents no certificate. With neither, it is checked against nothing. |
| TlsSetup.Connect | picow_iot.c:155-229 | The client asks for the selected configuration, then binds the broker host name. A NULL configuration returns -1, and nothing is requested after those two calls. Otherwise exactly one connect request follows: client id "PicoW", the broker's credentials, keep-alive 0, no will, and the configuration built. The connect call's result is returned. |
| TlsSetup.ConnectOnlyWithConfig | picow_iot.c:184-220 | For any credentials, the host name is bound, and a connect request is made if and only if a configuration was built. |
| TlsSetup.HiveCredentials | crypto_consts.example.h:14-20 | The HiveMQ profile of the example header defines only a CA, so the client asks for a CA-only configuration anchored at that CA and presents no certificate of its own. |
| TlsSetup.CaOnlyScenario | picow_iot.c:188-194 | With only a CA and host "broker.example", the request is CA-only and bound to "broker.example". No client certificate is attached. |
| PollLoop.Init | picow_iot.c:231-249 | The entry state meets the precondition of the subscribe and spacing lemmas: not subscribed, no timer armed, both counters 0. Because `timeout` starts as `nil_time`, the first iteration is due whatever the clock reads. |
| PollLoop.Poll | picow_iot.c:246-269 | When not connected, or when the timer is still in the future, nothing changes. Otherwise the iteration does the following: subscribes only if not yet subscribed; is then subscribed whatever the subscribe returned; attempts exactly one publish carrying the current counters. On `ERR_OK` the counter grows by 1 and the timer is re-armed 5000 ms after the re-arm clock reading. On any other result the counter and timer are untouched. |
| PollLoop.PublishCompleted | picow_iot.c:126-130 | A publish completion increments `received` by 1 whatever its error code, and changes nothing else. |
| PollLoop.SubscribeAtMostOnce | picow_iot.c:243-256 | Over any run from a state with no timer armed before the first subscribe (every state reachable from `Init`), the subscribe is issued once if some iteration sees the client connected while not yet subscribed, and never otherwise. `subscribed` ends true exactly when it started true or some iteration was connected. |
| PollLoop.SubscribeOnceFromStart | picow_iot.c:242-256 | From the loop's entry state, the subscribe is issued exactly once if the client is ever seen connected, and zero times if it never is. |
| PollLoop.CounterCountsAccepted | picow_iot.c:258-263 | Over any run, the counter grows by exactly the number of publishes that returned `ERR_OK`. |
| PollLoop.ReceivedCountsCompletions | picow_iot.c:126-130 | Over any run, `received` grows by exactly the number of completions, failed ones included. |
| PollLoop.StepAccepted | picow_iot.c:249-264 | An event adds an accepted publish exactly when it is a due, connected iteration whose publish returned `ERR_OK`. Only then is the timer moved, to 5000 ms after the re-arm reading. Otherwise the timer stays where it was. |
| PollLoop.StepKeepsSpacing | picow_iot.c:249-263 | One event keeps the accepted publishes at least 5000 ms apart, and all of them at least 5000 ms before the armed timer. |
| PollLoop.RunKeepsSpacing | picow_iot.c:246-270 | Any run from a state that respects the timer keeps the accepted publishes at least 5000 ms apart. |
| PollLoop.PublishesAtLeastIntervalApart | picow_iot.c:249-263 | From the loop's entry state, any two accepted publishes are at least 5000 ms apart. |
| PollLoop.SubscribeComesFirst | picow_iot.c:253-258 | From a state not yet subscribed and with no timer, the first request the loop makes is the subscribe. |
| PollLoop.RejectedPublishRetriedAtOnce | picow_iot.c:249-264 | A due, connected iteration whose publish is rejected leaves the timer expired, so the next connected iteration at any later clock reading publishes again with the same counters, and makes no other request. |
| PollLoop.RejectedPublishScenario | picow_iot.c:242-264 | From the entry state, a publish rejected at time 0 is followed by a second publish at time 0. |

## Findings

| source | as written | input that shows it | evidently intended | confidence | as-written member | corrected member |
|---|---|---|---|---|---|---|
| picow_iot.c:92 | `data_len` is `u8_t`, but it indexes a buffer that accepts messages of up to 1024 bytes. The offset wraps modulo 256, later chunks overwrite earlier bytes, and the terminator lands inside the message. | Announce `n` between 256 and 1024, then deliver `n` NUL-free bytes in one chunk: the 0 is written at `n mod 256` and byte `n` is never terminated. For example, a 1000-byte message in chunks of 400, 400 and 200 bytes is copied at offsets 0, 144 and 32, with the 0 at index 232. | An offset as wide as the buffer index, so that every accepted message is reassembled and terminated at its length | high; not executed | Reassembler.NarrowOffsetTruncatesLongMessage | Reassembler.WideReassemblesAllMessages |

## Left out

- `main`, the `cyw43_arch_*` driver calls, the Wi-Fi join and the exit codes (picow_iot.c:274-315). These are hardware and driver I/O.
- `run_dns_lookup` and `dns_found` (picow_iot.c:59-87). They busy-wait on an external resolver. The resolved address is an input of `TlsSetup.Connect`.
- `mqtt_client_init` and the prologue of `mqtt_run_test` (picow_iot.c:49-57, 232-244). These are a NULL check on foreign allocations and the choice to enter the loop only when the connect returns `ERR_OK`. `PollLoop.Init` models the state they establish.
- The lwIP, altcp_tls and mbedTLS calls: config creation, `altcp_tls_set_server_name`, `mqtt_client_connect`, `mqtt_publish`, `mqtt_sub_unsub`, `mqtt_client_is_connected`. Their bodies are foreign. They appear only as recorded actions or as inputs.
- What `altcp_tls_set_server_name` does when given a NULL configuration. The source makes that call before its NULL check in every branch (picow_iot.c:186-209). The model records the call, but the engine's handling of NULL cannot be seen.
- The non-TLS build. `MQTT_TLS` is defined as 1 (picow_iot.c:23), so only the TLS path exists.
- `cyw43_arch_lwip_begin/end` locking. It is irrelevant in a single-threaded step model.
- `DEBUG_printf` output, `mqtt_connection_cb` and `mqtt_sub_request_cb` (they only log), and the `sprintf` payload text in `mqtt_test_publish`. The `Publish` action records the two counters that the payload carries.
- Reassembler.Chunk: it requires the transport's framing (`len <= data_in` while a message is in flight). It does not model the `u32_t` wrap of `data_in`, or the out-of-bounds `memcpy` that a longer chunk would cause. The source does not check either.
- Reassembler.Chunk: a chunk that arrives after an oversized announce, while an earlier message is still in flight, is appended to that earlier message. The model reproduces this, but it has no discard mode, because the source has none.
- PollLoop.Poll: `counter` is an unbounded natural number. The source's `u32_t` wraps only after 2^32 accepted publishes, which at one publish per 5 s is over 600 years. The same holds for `received` in PollLoop.PublishCompleted.
- PollLoop.Poll: times are unbounded integers in microseconds. The 64-bit wrap of `absolute_time_t` is not modelled. Each tick requires the re-arm clock reading to be no earlier than the reading at the top of the iteration, which a monotonic clock guarantees.
