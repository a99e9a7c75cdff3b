# ESP32 IoT honeypot: a Dafny model of its core

The firmware listens on the usual IoT ports and answers as a fake device. Every interaction is
recorded as an attack record. This project models the three sequential parts of that firmware
and proves properties of each.

- **The attack logger** (`attack_logger.c`): a ring of `MAX_LOG_ENTRIES` = 100 records with
  `head`, `tail` and `count`, an overwriting insert, a newest-first read-out that walks backwards
  from the head, clear, count, the reload arithmetic of `attack_logger_init`, and the one-line
  JSON export. Modules `AttackRecord` and `AttackLogger`.
- **The HTTP emulator** (`http_service.c`) has these parts:
  - the 10-character length gate;
  - the unchecked `sscanf("%15s %127s")` request-line scan;
  - the case-insensitive `User-Agent:` / `Authorization:` header loop, with its 255-character cap
    and its stop at the first empty line;
  - the form-field credential scan;
  - `url_decode`;
  - the record `log_http_attack` builds;
  - the choice between the 403 fake admin page and the 400 error page, and the response text.

  Modules `HttpRequest`, `Credentials`, `UrlCodec`, `HttpResponse` and `HttpService`.
- **The honeypot control surface** (`honeypot.c`) has these parts:
  - the start/stop flag machine;
  - whole-struct configuration set and get;
  - statistics reset;
  - the admission pipeline for a new connection;
  - the port-to-service counter update;
  - the cadence test of the stale-connection sweep, using 32-bit tick arithmetic.

  Module `Honeypot`.

Shared pieces live in `Esp`:
- `esp_err_t` codes;
- `uint8_t`/`uint16_t`/`uint32_t` as newtypes;
- wrapping increment and subtraction.

Also shared is `Text`:
- `Option`;
- C-string reading (`CStr`, up to the first NUL);
- truncation as `snprintf`/`strncpy` do it;
- `strstr` as `Find`, and `strchr`;
- `strncasecmp` as `SameCaseless`;
- decimal rendering and its reader.

Every operation is a pure function over immutable values. The only method is the read-out loop
`GetRecent`. NULL pointers are `Option`s or booleans. Platform inputs are parameters: the clock,
the MD5 digest, the verdicts of `xTaskCreate`, the rate limiter and the socket manager, and the
text `strftime` renders.

Each operation is tied to a partner:
- the ring's contents are tied to the list of all inserts ("the last 100, oldest first");
- the JSON export and the HTTP response are tied to readers that parse them back;
- `url_decode` is tied to a form encoder it inverts;
- the credential loops are tied to a "last fitting marker" reference;
- the counters are tied to counts over a run of attempts.

## Notes on the code's behaviour

- A suspicious path only produces a console warning (`HttpService.HandleRequest`'s `warned`). The record's metadata is `Method: <m>, Path: <p>` cut to the metadata buffer, and the suspicious-path check never changes it.
- Only a request shorter than 10 characters is rejected. The `sscanf` result is never checked, and a rejected request is not logged (`HttpRequest.ParseRequest`, `HttpService.HandleRequest`).
- A connection refused at capacity increments no counter (`Honeypot.Admit`).
- The export timestamp is local time with a `Z` appended. The time text is an input here.
- The POST body `username=admin&password=sup+er%40` does not yield `admin` / `sup er@` through the code as written; see Findings.

## Model

| member | source | states |
|---|---|---|
| AttackLogger.Init | iot-honeypot-esp32/main/logging/attack_logger.c:30-52 | A failed flash init returns `ESP_FAIL` and the boot state. Otherwise the result is `ESP_OK` with a valid ring whose retained records are exactly the loaded ones, zeroed counters and the start time set. |
| AttackLogger.ReloadReadOut | iot-honeypot-esp32/main/logging/attack_logger.c:41-46 | After a reload, reading back as many records as were loaded returns them newest first, so the reload arithmetic `head = loaded % MAX`, `count = loaded` is consistent with the ring. |
| AttackLogger.Insert | iot-honeypot-esp32/main/logging/attack_logger.c:61-72 | A store keeps the ring invariant: `count <= MAX`, `head`/`tail` inside the array, `head == (tail + count) % MAX`. `count` becomes `min(count+1, MAX)`. The retained records gain the entry at the end, and once full the oldest is dropped. `total_logged` goes up by one and `last_log_time` is the current time. |
| AttackLogger.Log | iot-honeypot-esp32/main/logging/attack_logger.c:54-81 | A NULL entry gives `ESP_ERR_INVALID_ARG` and an unchanged logger. Otherwise the result is `ESP_OK`, a valid ring, `total_logged + 1`, and the entry is the newest retained record. |
| AttackLogger.FullRingOverwritesOldest | iot-honeypot-esp32/main/logging/attack_logger.c:61-68 | In a full ring `tail == head`, and the head slot holds the oldest record. The insert writes into that slot, keeps `tail == head`, and the retained records lose the oldest one. |
| AttackLogger.InsertAllContents | iot-honeypot-esp32/main/logging/attack_logger.c:61-68 | Any run of inserts leaves exactly the last 100 of (previously retained ++ inserted), oldest first, however often the ring wrapped. |
| AttackLogger.GetRecent | iot-honeypot-esp32/main/logging/attack_logger.c:83-104 | Missing output pointers give `ESP_ERR_INVALID_ARG`. Otherwise the result is `ESP_OK` and the backwards walk from the head copies exactly `Recent`: `min(count, max)` records, newest first. |
| AttackLogger.RecentNewestFirst | iot-honeypot-esp32/main/logging/attack_logger.c:89-101 | The read-out is the newest `min(count, max)` retained records in reverse order, so the first entry is the newest. |
| AttackLogger.RecentAfterFewInserts | iot-honeypot-esp32/main/logging/attack_logger.c:89-101 | After `k <= 100` inserts into the empty logger, reading `k` back gives exactly those records in reverse insertion order. |
| AttackLogger.RecentAfterManyInserts | iot-honeypot-esp32/main/logging/attack_logger.c:61-68 | After `k > 100` inserts, reading 100 back gives exactly the last 100 inserted, newest first. |
| AttackLogger.Clear | iot-honeypot-esp32/main/logging/attack_logger.c:106-122 | `head`, `tail`, `count`, `total_logged` and `last_log_time` become 0. The start time and the array are kept. Nothing is retained. |
| AttackLogger.ClearEmptiesReadOut | iot-honeypot-esp32/main/logging/attack_logger.c:89-94 | After a clear, every read-out is empty and the count is 0, whatever the limit. |
| AttackLogger.Count | iot-honeypot-esp32/main/logging/attack_logger.c:134-137 | The count is at most `MAX_LOG_ENTRIES` and equals the number of retained records. |
| AttackRecord.FormatJson | iot-honeypot-esp32/main/logging/attack_logger.c:151-180 | A NULL record or buffer gives `ESP_ERR_INVALID_ARG` and writes nothing into the buffer. Otherwise the result is `ESP_OK` exactly when the rendering plus its NUL fits the buffer, and `ESP_ERR_INVALID_SIZE` otherwise. On `ESP_OK` the buffer holds the whole rendering. On `ESP_ERR_INVALID_SIZE` with a non-zero size it holds the rendering's first `size - 1` characters, and with size 0 nothing. A successful rendering with quote-free values parses back to the nine printed values. |
| AttackRecord.JsonRoundTrip | iot-honeypot-esp32/main/logging/attack_logger.c:161-173 | The rendering reads back, under the keys timestamp, source_ip, target_port, service, username, password, user_agent, payload_hash and metadata in that order, as the printed values. Field by field: the time text, source IP, service, username, password, user agent, payload hash and metadata each up to their first NUL, and the port as a number. |
| HttpRequest.ParseRequest | iot-honeypot-esp32/main/services/http_service.c:89-128 | Fewer than 10 characters fail to parse; anything else parses. The request line is the `sscanf` scan, and both header values are shorter than 255. |
| HttpRequest.ScanRequestLine | iot-honeypot-esp32/main/services/http_service.c:97 | The method has at most 15 characters and the path at most 127, neither contains whitespace, the method is empty exactly when the text is all whitespace, and an empty method means an empty path. |
| HttpRequest.ScanWellFormedLine | iot-honeypot-esp32/main/services/http_service.c:97 | `<method> <path>` followed by whitespace or the end yields exactly that method and path when they fit their widths. |
| HttpRequest.SingleTokenLine | iot-honeypot-esp32/main/services/http_service.c:97 | A request line of one token, followed only by whitespace, yields that token as the method and an empty path, since the unchecked second conversion leaves its field empty. |
| HttpRequest.LongPathCut | iot-honeypot-esp32/main/services/http_service.c:97 | A path longer than 127 characters is cut after its first 127. |
| HttpRequest.MethodSpillsIntoPath | iot-honeypot-esp32/main/services/http_service.c:97 | A method token of 16 to 142 characters is cut after 15, and its remainder becomes the path. |
| HttpRequest.CaptureValue | iot-honeypot-esp32/main/services/http_service.c:107-111 | When the first CRLF after the value's start is fewer than 255 characters on, the value is the text up to it. When it is further on, or there is no CRLF at all, the field keeps its previous content. |
| HttpRequest.ScanHeadersBounded | iot-honeypot-esp32/main/services/http_service.c:100-125 | After the whole header loop, each field is its initial value or a CRLF-free capture shorter than 255. |
| HttpRequest.BlankLineEndsScan | iot-honeypot-esp32/main/services/http_service.c:122-124 | Once the loop stops at an empty line, appending any text after the request does not change what it captures. A header after the empty line is never seen. |
| HttpRequest.UserAgentCaptured | iot-honeypot-esp32/main/services/http_service.c:104-112 | A first header named `User-Agent:` in any letter case, then any run of spaces and a CRLF-free value `v`, then an empty line: the user agent is `v` when it is shorter than 255, and stays empty otherwise. |
| HttpRequest.AuthorizationCaptured | iot-honeypot-esp32/main/services/http_service.c:113-121 | The same for `Authorization:` in any letter case, whose value becomes the authorization value. |
| UrlCodec.UrlDecode | iot-honeypot-esp32/main/services/http_service.c:230-248 | The output is never longer than the input. |
| UrlCodec.DecodeExample | iot-honeypot-esp32/main/services/http_service.c:235-245 | `sup+er%40` decodes to `sup er@`. |
| UrlCodec.DecodeEncode | iot-honeypot-esp32/main/services/http_service.c:235-245 | Decoding inverts form encoding on every byte string: `+` for space, `%XX` for anything not alphanumeric. |
| UrlCodec.DecodePlain | iot-honeypot-esp32/main/services/http_service.c:243-244 | Text with no `%` and no `+` is copied unchanged. |
| Credentials.ValueEnd | iot-honeypot-esp32/main/services/http_service.c:198-201 | A value ends at the first `&` after its start. Only when there is no `&` does it end at the first space, and otherwise at the end of the text. A space before a later `&` does not end it. |
| Credentials.MarkerValue | iot-honeypot-esp32/main/services/http_service.c:196-201 | A value exists exactly when the marker occurs. It is a prefix of the text after the marker's first occurrence and holds no `&`. |
| Credentials.LastMatchWins | iot-honeypot-esp32/main/services/http_service.c:195-227 | One marker loop leaves the capture of the last value that passes the length test, or the field's prior value when none passes. |
| Credentials.ExtractAsWritten | iot-honeypot-esp32/main/services/http_service.c:187-228 | With `sizeof(char *) - 1` = 3 as the bound, each field keeps its prior value or is replaced by at most two characters. |
| Credentials.AsWrittenDropsCredentials | iot-honeypot-esp32/main/services/http_service.c:204 | As written, `username=admin&password=sup+er%40` leaves both fields at `N/A`. |
| Credentials.ExtractCorrected | iot-honeypot-esp32/main/services/http_service.c:187-228 | With the field sizes as bounds, each field keeps its prior value or holds a capture that fits it. |
| Credentials.CorrectedKeepsCredentials | iot-honeypot-esp32/main/services/http_service.c:195-227 | Corrected, the same form yields `admin` and `sup er@` once the fields can hold them. |
| HttpResponse.Wire | iot-honeypot-esp32/main/services/http_service.c:44-51 | What is sent is a prefix of the filled template and shorter than the response buffer. |
| HttpResponse.ResponseRoundTrip | iot-honeypot-esp32/main/services/http_service.c:44-51 | A filled template reads back as its status code, reason phrase and body, with a `Content-Length` equal to the body's length. |
| HttpResponse.ReplyReadsBack | iot-honeypot-esp32/main/services/http_service.c:130-148 | A reply whose rendering fits its buffer is sent whole and reads back as its code, reason and body. |
| HttpResponse.ForbiddenReadsBack | iot-honeypot-esp32/main/services/http_service.c:130-137 | The 403 fits its 2048-character buffer. The client reads `403 Forbidden`, the fake admin page, and a `Content-Length` equal to that page's length. |
| HttpResponse.BadRequestReadsBack | iot-honeypot-esp32/main/services/http_service.c:139-148 | The 400 fits its 512-character buffer. The client reads `400 Bad Request`, the error page, and a `Content-Length` equal to that page's length. |
| HttpService.HandleRequest | iot-honeypot-esp32/main/services/http_service.c:58-87 | A request shorter than 10 characters gets the 400, logs nothing and raises no suspicious-path warning. Any other request gets the 403, whatever its path, and its record is inserted into the ring. The console warning is written exactly when the path holds `/shell`, `/cmd`, `/exec` or `..`. |
| HttpService.BuildRecord | iot-honeypot-esp32/main/services/http_service.c:150-185 | The record carries the current time, the port and service `HTTP`. Every string fits its buffer. The source IP, user agent and metadata are prefixes of their sources, and each is exactly its source when that fits. The credentials are the ones the firmware's scan leaves. |
| HttpService.HeaderCreds | iot-honeypot-esp32/main/services/http_service.c:157-168 | Before the POST scan, both credentials fit their buffers. The username is `N/A`. The password is `N/A` without `Authorization`, and otherwise a prefix of its value. |
| HttpService.RecordCreds | iot-honeypot-esp32/main/services/http_service.c:157-173 | The final credentials fit their buffers. Without POST they are the header step's. With POST the scan as written, bounded by `sizeof(char *) - 1` = 3, leaves each field as the header step left it or replaces it with at most two characters. |
| HttpService.RecordCredsCorrected | iot-honeypot-esp32/main/services/http_service.c:157-173 | With the intended bounds (the record's buffer sizes) the credentials still fit their buffers, and without POST they are the header step's. |
| HttpService.DefaultsWithoutCredentials | iot-honeypot-esp32/main/services/http_service.c:161-162 | Without POST and without `Authorization`, username and password are `N/A`. |
| HttpService.AuthorizationBecomesPassword | iot-honeypot-esp32/main/services/http_service.c:166-168 | Without POST, a non-empty `Authorization` value, cut to the field, is the password, and the username stays `N/A`. |
| HttpService.PostFormDecidesPassword | iot-honeypot-esp32/main/services/http_service.c:171-173 | With method exactly `POST`, the last password marker whose value is shorter than 3 characters decides the password, overriding `Authorization`. When none is that short, the header step's password stays. |
| HttpService.PostFormDecidesUsername | iot-honeypot-esp32/main/services/http_service.c:171-173 | With method exactly `POST`, the last username marker whose value is shorter than 3 characters decides the username, and otherwise it stays `N/A`. |
| HttpService.LoginFormRecorded | iot-honeypot-esp32/main/services/http_service.c:171-173 | A POST of `username=admin&password=sup+er%40` without `Authorization` is logged with `N/A` / `N/A`. The corrected scan logs `admin` / `sup er@` once the buffers can hold them. |
| HttpService.HashIgnoresTail | iot-honeypot-esp32/main/services/http_service.c:176-178 | The digest never depends on anything after the first 512 characters. |
| HttpService.ShortPayloadHashedWhole | iot-honeypot-esp32/main/services/http_service.c:176-178 | A payload of at most 512 characters is hashed whole. |
| HttpService.MetadataWhenItFits | iot-honeypot-esp32/main/services/http_service.c:181-182 | When it fits, the metadata is exactly `Method: <m>, Path: <p>`. |
| Honeypot.Start | iot-honeypot-esp32/main/honeypot.c:74-101 | Starting while running is a no-op returning `ESP_OK`. A failed task creation returns `ESP_FAIL` with the honeypot still stopped. `ESP_OK` holds exactly when the honeypot ends up running. Configuration and statistics are untouched. |
| Honeypot.Stop | iot-honeypot-esp32/main/honeypot.c:103-123 | Always `ESP_OK`, always stopped with no task handle, and a no-op when already stopped. |
| Honeypot.StartStopIdempotent | iot-honeypot-esp32/main/honeypot.c:76-79 | Stopping twice equals stopping once, and starting a running honeypot changes nothing. |
| Honeypot.StartThenStop | iot-honeypot-esp32/main/honeypot.c:93-111 | A start followed by a stop returns a stopped honeypot to exactly its prior state, whatever the task verdict. |
| Honeypot.ResetStats | iot-honeypot-esp32/main/honeypot.c:135-141 | Every counter becomes 0, the start time becomes now, and nothing else changes. |
| Honeypot.ResetTwice | iot-honeypot-esp32/main/honeypot.c:135-141 | A second reset erases the first: the result depends only on the later reset time. |
| Honeypot.SetConfig | iot-honeypot-esp32/main/honeypot.c:143-152 | NULL gives `ESP_ERR_INVALID_ARG` with an unchanged state. Otherwise the whole configuration is replaced and nothing else changes. |
| Honeypot.GetConfig | iot-honeypot-esp32/main/honeypot.c:154-162 | NULL gives `ESP_ERR_INVALID_ARG` and no configuration. Otherwise the result is `ESP_OK` with the current configuration. |
| Honeypot.SetThenGet | iot-honeypot-esp32/main/honeypot.c:143-162 | Reading the configuration after setting `c` gives exactly `c`. After a rejected set it gives the previous configuration. |
| Honeypot.Admit | iot-honeypot-esp32/main/honeypot.c:233-262 | Admission happens exactly when all three verdicts pass. A rate-limited source bumps only `rate_limited`, an admitted connection bumps only `total_connections`, and a capacity or add rejection changes no counter. |
| Honeypot.RateLimitDecidesFirst | iot-honeypot-esp32/main/honeypot.c:239-244 | For a rate-limited source the capacity and add verdicts make no difference. |
| Honeypot.AdmitAllCounts | iot-honeypot-esp32/main/honeypot.c:239-260 | Over any run of attempts, `total_connections` grows by the number admitted and `rate_limited` by the number rate-limited, modulo 2^32, and no other field changes. |
| Honeypot.UpdateStatistics | iot-honeypot-esp32/main/honeypot.c:272-292 | `attacks_logged` goes up by one. Exactly the counter of the port's service goes up by one (80/8080 HTTP, 23/2323 Telnet, 21 FTP, 1883 MQTT). Any other port changes no service counter. |
| Honeypot.DefaultPortsClassified | iot-honeypot-esp32/main/honeypot.c:27-34 | Every default listening port belongs to a service, and every service has a default port. |
| Honeypot.MsToTicks | iot-honeypot-esp32/main/honeypot.c:220 | Without overflow, `pdMS_TO_TICKS(ms)` is `ms * hz / 1000`. |
| Honeypot.CleanupTick | iot-honeypot-esp32/main/honeypot.c:218-223 | The sweep runs exactly when more than 5000 ms worth of ticks have passed since the last one, measured by wrapping subtraction. It then records the current tick, and otherwise nothing changes. |
| Honeypot.CleanupDueAcrossWrap | iot-honeypot-esp32/main/honeypot.c:219-220 | Even across a wrap of the tick counter, a sweep is due after `e` ticks exactly when `e` exceeds the interval. |
| Honeypot.SweepsSpacedOut | iot-honeypot-esp32/main/honeypot.c:218-223 | Two consecutive sweeps are more than the interval apart. |
| Esp.Inc32 | iot-honeypot-esp32/main/honeypot.c:242 | `uint32_t` increment wraps modulo 2^32. |
| Esp.Sub32 | iot-honeypot-esp32/main/honeypot.c:220 | `TickType_t` subtraction wraps modulo 2^32. |

## Left out

- Sockets are left out: `accept`, `send`, `close`, `select`, and every `socket_manager_*` call. The capacity check and the add are boolean inputs of `Admit`, and a response is the text it would send.
- FreeRTOS is left out: `honeypot_task`'s loop, `xTaskCreate`, `vTaskDelete`, `vTaskDelay` and the watchdog. Task creation is a boolean input of `Start`. The loop is represented only by its cleanup test, with the tick rate as a parameter of 1 to 1000 Hz.
- The interleaving of `honeypot_start` with the task it creates is not modelled. The task is created before `honeypot_running` is set (`honeypot.c:84-97`). A task that reaches its loop test first would exit while the handle stays set, so `hasTask` records only that the handle is set.
- Flash persistence (`flash_storage_*`) and `log_to_console` are left out. They are side effects with no bearing on the ring. Init takes the flash verdict and the loaded records as inputs.
- The MD5 digest is a function-valued parameter `digest` of the text it covers.
- The timestamp text that `localtime`/`strftime` render is a string input. The export writes local time with a `Z` suffix and applies no JSON escaping. The export reader therefore needs values free of double quotes.
- The rate limiter, the Telnet, FTP and MQTT services, and `main/main.c` are not part of this model. Their verdicts are inputs.
- `honeypot_init` is left out as a whole. Its logger step is `attack_logger_init`, modelled as `AttackLogger.Init`. It also sets the statistics' start time, which `Honeypot.ResetStats` models with the clock as an input. Its other steps initialise the rate limiter and the services, which are outside this model.
- `honeypot_get_stats`, `attack_logger_get_stats` and `http_service_init` are left out. The first two copy a struct to the caller, and the last only logs.
- `attack_logger.h` is not part of this model. The logger's `total_logged` is an unbounded natural, and the sizes of the record's string buffers are a parameter (`HttpService.FieldSizes`).
- `update_statistics` is never called in the code shown. The model states what it would do.
- AttackRecord.FormatJson: the text in the buffer on an `ESP_ERR_INVALID_SIZE` result is the `snprintf` truncation. A negative `snprintf` result (an encoding error) is not modelled, since the arguments are plain strings.
- HttpResponse.ResponseRoundTrip: requires a reason phrase without `\r`. Both reasons the firmware sends have none.
- HttpResponse.ResponseText: takes `strlen(body)` to be the body's length. The bodies are the firmware's constant pages, which hold no NUL.
- HttpService.HandleRequest: the console log lines (`ESP_LOGI`, `ESP_LOGW`) are represented only by the `warned` flag for suspicious paths.
- HttpRequest.UserAgentCaptured: covers a request whose first header is the captured one. The general header loop is covered by `ScanHeadersBounded` and `BlankLineEndsScan`.
- HttpRequest.AuthorizationCaptured: covers a request whose first header is the captured one. An `Authorization:` line after other header lines is captured by the same loop step (`UnfoldAuthorization`), but no lemma states the end result for that case. The general loop is covered by `ScanHeadersBounded` and `BlankLineEndsScan`.
- AttackLogger.Init: models the call at boot, from the boot state. A later call keeps `tail`, `total_logged` and `last_log_time`, and when it loads nothing it also keeps `head` and `count`. That repeated call is not modelled.
- A NULL request buffer, which `parse_http_request` rejects, is not modelled (`http_service.c:92`). `http_service_handle_request` forwards its `data` argument unchanged, and its callers are outside this model.
- The JSON reader `AttackRecord.ParseJson` reads only the shape of this one export. It knows no backslash escapes, because the export writes none.
- `Honeypot.Config`'s port list is an unbounded sequence. The firmware's is a fixed array of 6 ports.
- Characters are treated as bytes. `char` values above 255 never arise from the firmware's buffers, and no encoding is modelled.

## Findings

| source | as written | input that shows it | evidently intended | confidence | as-written member | corrected member |
|---|---|---|---|---|---|---|
| iot-honeypot-esp32/main/services/http_service.c:204 | `len < sizeof(username) - 1` and `len < sizeof(password) - 1` (line 221), where both are `char *` parameters. On the 32-bit ESP32 this is `len < 3`, so only values of at most two characters are ever captured. | the POST body `username=admin&password=sup+er%40`, which leaves both fields at `N/A` | compare against the sizes of the record's username and password buffers, so the form yields `admin` and `sup er@` | high; not executed | Credentials.AsWrittenDropsCredentials | Credentials.CorrectedKeepsCredentials |
