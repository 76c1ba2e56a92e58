# Crypto price dongle: a verified model of the firmware's logic

This project models the logic of the ESP32 "crypto dongle". The dongle shows
a cryptocurrency quote on its display. It gets on the network in three
stages: first the stored Wi-Fi credentials, then any open network, and
failing both it starts its own access point "CryptoDongle" with a
configuration page. In station mode it fetches a quote for the selected
pair every refresh interval.

The project has seven modules:

- `CLib` (`clib.dfy`): the C library behaviour the firmware relies on.
  This means NUL-terminated strings, `strncpy`, `atoi`, and `uint32_t`
  conversion and multiplication.
- `Settings` (`settings.dfy`): the NVS namespace "storage". It is a map
  from key to a typed value, with the typed reads `nvs_get_str` and
  `nvs_get_u32`, and a handle class whose `set` calls overwrite one key
  each.
- `WebServer` (`webserver.dfy`): the POST /save handler of the
  configuration service. This covers the length check, the receive and the
  byte-level form parser (split on `&`, split at the first `=`, `+` and
  `%XY` decoding with `strtol`'s exact behaviour). It also covers the
  truncating copies into `form_data_t` and the five store writes before
  the restart.
- `WebServerProperties` (`webserver_properties.dfy`): what the parser
  promises. This includes the last assignment of a key winning, the
  examples of the configuration page, and a round trip from what a browser
  submits to what is stored. It also includes the read-back of the stored
  settings by the rest of the firmware.
- `WifiManager` (`wifi_manager.dfy`): the Wi-Fi event handler, the station
  connect with its 10-poll wait, the open-network scan (at most 20 records,
  open ones only, in order, 5 polls each) and the access-point
  configuration. The radio is an oracle: a sequence of event batches, one
  delivered before each check of the `wifi_connected` flag. Time is counted
  in the 1000 ms delays.
- `CryptoPrice` (`crypto_price.dfy`): the selected pair, with defaults
  "BTC"/"USD" and the override from the store. Also the request URL as
  `snprintf` bounds it, the response read, and the rule that a fetch gives
  a quote only when the JSON has the crypto's object and that object has
  both the currency and `24h_change`.
- `App` (`app.dfy`): `app_main`. This is the NVS start with its
  single erase-and-retry, the three-stage bootstrap and AP mode, the
  station loop over a given number of cycles (fetch, show on success,
  re-read the interval, wait), and the behaviour across a restart after a
  save.

These operations become parameters, so the model stays a pure function of
its inputs:

- the flash driver's results;
- whether the store opens (the read-write open of the save handler, and
  the read-only opens at start-up, which fail while the namespace has
  never been written);
- the Wi-Fi events and the scan result;
- the HTTP exchange (a function from URL to response, per cycle);
- `cJSON_Parse` (a function from text to an optional JSON value).

JSON objects are kept as ordered lists of members, not as maps.
`cJSON_GetObjectItem` compares names ignoring ASCII case and returns the
first match. A map cannot express duplicate names that differ only in case,
or which of them wins. The model therefore follows the code rather than a
nested map of lower-case keys.

The code ignores the result of `nvs_commit`: once the store opens, the
five writes, the confirmation and the restart always follow, and there is
no error path for a failed commit. The five writes are independent `set`
calls, modelled as five map updates, one after the other.

## Model

| member | source | states |
|---|---|---|
| CLib.CString | src/webserver.c:142 | the C string of a buffer is its longest NUL-free prefix, ending where the first NUL is |
| CLib.StrNCopy | src/webserver.c:104-110 | `strncpy(dst, src, n)` into a zeroed buffer keeps exactly the first min(n, length) characters of the C string, all of it when it fits |
| CLib.AtoiOfDecimal | src/webserver.c:112 | `atoi` reads back the decimal numeral of any `n`, and of `-n` |
| CLib.ToU32 | src/webserver.c:156 | an `int` stored as `uint32_t` is reduced modulo 2^32 and is unchanged when in range |
| CLib.MulU32 | src/main.c:62 | the 32-bit product equals the true product when it fits and is congruent to it modulo 2^32 |
| Settings.GetStr | src/wifi_manager.c:67-77 | a string read succeeds exactly when the key holds a string that fits the buffer with its terminator, and gives that string |
| Settings.GetU32 | src/main.c:58 | a u32 read succeeds exactly when the key holds a u32, and gives it |
| Settings.Nvs.SetStr | src/webserver.c:152-155 | a string write overwrites one key and leaves every other key unchanged |
| Settings.Nvs.SetU32 | src/webserver.c:156 | a u32 write overwrites one key and leaves every other key unchanged |
| WebServer.StrtolHex | src/webserver.c:92-93 | `strtol` of the two escape characters: their hex value when both are hex digits, 0 when the first cannot start a number, always in -15..255 |
| WebServer.UrlDecode | src/webserver.c:90-100 | the decoded value is never longer than the encoded one and is empty only when that is |
| WebServer.UrlDecodeAt | src/webserver.c:90-99 | each step of the decoder: a `%` with two following characters is one escaped byte, `+` is a space, anything else is copied |
| WebServer.DecodeValue | src/webserver.c:88-100 | the byte loop fills the 64-byte buffer with the first 63 bytes of the decoded value (corrected bound) |
| WebServer.StoreField | src/webserver.c:103-113 | a key other than the five field names leaves the form unchanged |
| CLib.IndexOf | src/webserver.c:82 | `strchr` finds the first occurrence of the character, and None means it does not occur |
| WebServer.Tokens | src/webserver.c:81 | `strtok_r` on `&` yields only non-empty tokens without `&` |
| WebServer.SkipDelimiters | src/webserver.c:81 | skipping leading `&`s does not change the remaining tokens |
| WebServer.ScanToken | src/webserver.c:81 | a token runs to the next `&` or the end |
| WebServer.NextToken | src/webserver.c:81 | each `strtok_r` call returns the first remaining token and leaves the rest, or reports that none is left |
| WebServer.TokensNext | src/webserver.c:81 | a token ends at the end of the body or at an `&`, which the next call skips |
| WebServer.ApplyToken | src/webserver.c:82-113 | a token without `=`, or with an unknown key, leaves the form unchanged, and every field stays within its capacity |
| WebServer.ParseSpec | src/webserver.c:76-116 | every parsed field fits its buffer with its terminator |
| WebServer.ApplyTokensFits | src/webserver.c:104-110 | applying any tokens keeps every field within its capacity |
| WebServer.HandleToken | src/webserver.c:82-113 | the imperative split at `=`, decode and dispatch computes what the token specification says |
| WebServer.ParseFormData | src/webserver.c:76-116 | the `strtok_r` loop over the body yields the form the specification gives, with all fields within capacity |
| WebServer.ReceivedLength | src/webserver.c:138 | the receive returns at most `remaining` bytes and a positive count exactly when data arrived |
| WebServer.AcceptedBodyLeavesRoomForTerminator | src/webserver.c:129-142 | with the corrected length check, `buf[ret]` is inside the 1024-byte buffer |
| WebServer.BodyTerminatorOverrunWitness | src/webserver.c:132-142 | as written, a 1024-byte body passes the check and makes `ret` 1024 |
| WebServer.SaveSpec | src/webserver.c:127-173 | a too-long body is rejected before any read, a failed receive ends the request, a store that does not open gives a 500, and otherwise the parsed body is saved |
| CLib.CStringAppendNul | src/webserver.c:142 | writing the terminator after the received bytes does not change the C string the parser sees |
| WebServer.Receive | src/webserver.c:138 | the received bytes land at the start of the buffer |
| WebServer.SaveHandler | src/webserver.c:127-173 | the handler's outcome and steps are the specification's, and the store changes by the five writes exactly when it saved |
| WebServerProperties.UrlDecodePlain | src/webserver.c:97-98 | a value without `%` or `+` decodes to itself |
| WebServerProperties.TrailingPercentIsLiteral | src/webserver.c:91-98 | a `%` with fewer than two following characters is copied literally |
| WebServerProperties.ExampleEncodedPassword | src/webserver.c:90-99 | `password=a%2Bb+c` stores the password `a+b c` |
| WebServerProperties.ExampleCryptoAndInterval | src/webserver.c:111-112 | `crypto=BTC&interval=120` gives crypto `BTC`, interval 120 and every other field empty |
| WebServerProperties.TokensOfJoin | src/webserver.c:81 | joining non-empty `&`-free tokens with `&` and splitting again gives the same tokens |
| WebServerProperties.ParsePairs | src/webserver.c:81-85 | parsing a joined list of `key=value` pairs applies the pairs in order |
| WebServerProperties.PairToken | src/webserver.c:82-85 | a token is split at its first `=`, and its key is what precedes it |
| WebServerProperties.FieldOf | src/webserver.c:67-73 | exactly the five field names denote a field of the form |
| WebServerProperties.LastWithKey | src/webserver.c:81-113 | finds the last token carrying a key, with no later one |
| WebServerProperties.FieldAfterTokens | src/webserver.c:81-113 | after a token list, a field holds what the last token with its key wrote, or is unchanged when there is none |
| WebServerProperties.ParsedFieldIsLastAssignment | src/webserver.c:81-116 | a later duplicate key overwrites an earlier one; a field never supplied keeps its initial empty or 0 value |
| WebServerProperties.FormEncode | src/webserver.c:28-58 | the browser's encoding of a field value contains neither `&` nor `=` |
| WebServerProperties.UrlDecodeInvertsFormEncode | src/webserver.c:90-99 | decoding undoes the browser's percent-encoding of any byte text |
| WebServerProperties.SubmissionRoundTrip | src/webserver.c:76-116 | a page submission parses to its fields truncated to 31, 63, 9 and 3 bytes and, for a short numeral, to the exact interval |
| WebServerProperties.DecodeOverrunWitness | src/webserver.c:88-99 | as written, a 65-character value decodes to more bytes than `decoded_value[64]` holds |
| WebServerProperties.SavedSettingsReadBack | src/webserver.c:150-156 | after a save, each reader's sized read gives the saved value, the interval reads as its u32 conversion, and other keys are unchanged |
| WebServerProperties.SaveRestartsExactlyWhenStored | src/webserver.c:150-172 | the restart happens exactly when the store opened, after the five writes, the commit and the confirmation; a failed receive touches nothing |
| WebServerProperties.UnnamedFieldsStoreEmpty | src/webserver.c:145-156 | a body without interval or crypto stores interval 0 and an empty crypto |
| WifiManager.Reactions | src/wifi_manager.c:15-17 | the handler's driver requests for a batch are one connect per STA_START and nothing else |
| WifiManager.LastLinkEvent | src/wifi_manager.c:18-25 | finds a connect or disconnect event of the batch with no link event after it, or reports that the batch has none |
| WifiManager.FoldEventsLastLink | src/wifi_manager.c:13-35 | after a batch the flag is set by its last connect or disconnect event and otherwise unchanged |
| WifiManager.Manager.HandleEvent | src/wifi_manager.c:10-36 | STA_CONNECTED sets the flag, STA_DISCONNECTED clears it, STA_START requests a connect, every other event changes nothing |
| WifiManager.Manager.Deliver | src/wifi_manager.c:10-36 | handling one batch event by event gives the batch's fold |
| WifiManager.PollLoopConnected | src/wifi_manager.c:97-100 | the poll loop ends connected exactly when the flag was set by some delivery within its polls |
| WifiManager.PollLoopTime | src/wifi_manager.c:97-100 | the polls wait at most one second each, and all of them when never connected |
| WifiManager.PollLoopStopsAtFirstSuccess | src/wifi_manager.c:97-100 | the loop stops at the first poll that sees the flag set |
| WifiManager.WaitConnectedIff | src/wifi_manager.c:96-102 | the wait returns true exactly when one of its `polls + 1` checks sees the flag set |
| WifiManager.WaitTime | src/wifi_manager.c:96-102 | the wait takes at most `polls` seconds, and exactly that long when it fails |
| WifiManager.WaitStopsAtFirstSuccess | src/wifi_manager.c:96-102 | the wait ends at the first check that sees the flag, after `k - 1` seconds |
| WifiManager.WaitKeepsConfigs | src/wifi_manager.c:96-102 | waiting requests no network configuration |
| WifiManager.Manager.WaitForConnection | src/wifi_manager.c:96-102 | the loop computes the wait's specification and returns the flag |
| WifiManager.Credentials | src/wifi_manager.c:58-77 | credentials exist exactly when the store opens and both strings are stored and fit 32 and 64 bytes |
| WifiManager.ConnectSpecProperties | src/wifi_manager.c:56-103 | without credentials nothing is requested and the result is false; with them one WPA2 configuration is requested, at most 10 s are waited, and the result is true exactly when one of the 11 checks sees the flag |
| WifiManager.StationAttempt | src/wifi_manager.c:81-102 | one station attempt requests exactly its configuration, waits at most 10 s and all of them on failure, and succeeds exactly when one of its 11 checks sees the flag |
| WifiManager.Manager.ConnectToWifi | src/wifi_manager.c:56-103 | the station connect computes its specification |
| WifiManager.Capped | src/wifi_manager.c:116-121 | at most the first 20 scan records are considered |
| WifiManager.OpenIndicesFrom | src/wifi_manager.c:123-124 | the candidates are exactly the open records, in increasing index order |
| WifiManager.CandidatesFrom | src/wifi_manager.c:123-134 | the SSIDs tried are those of the open records, in scan order |
| WifiManager.CandidatesStep | src/wifi_manager.c:123-124 | stepping past a record adds its SSID to the front of the candidates exactly when it is open |
| WifiManager.TryCandidatesShape | src/wifi_manager.c:123-149 | the candidates are configured in order with open auth, a prefix of them that is all of them when none connects, and each try waits at most 5 s |
| WifiManager.TryCandidatesStopsAtFirst | src/wifi_manager.c:123-149 | the tries stop at the first candidate that connects: every earlier try ended without the link, no later candidate is tried, and the radio is the one the successful try left; on false every candidate was tried and none connected |
| WifiManager.TryCandidatesExtendsCalls | src/wifi_manager.c:123-149 | trying candidates only appends driver requests |
| WifiManager.ScanSpecShape | src/wifi_manager.c:105-150 | the scan configures a prefix of the open networks among the first 20 records, all of them when it returns false |
| WifiManager.GetApRecords | src/wifi_manager.c:119-121 | the record array holds the first `count` scan records |
| WifiManager.Manager.ScanAndConnectOpenNetwork | src/wifi_manager.c:105-150 | the scan loop computes the scan specification |
| WifiManager.Manager.TryRecords | src/wifi_manager.c:123-149 | the record loop tries the open records in order and returns what trying those candidates gives |
| WifiManager.Manager.TryRecord | src/wifi_manager.c:124-146 | an open record is configured and waited for 5 s, handing on to the remaining candidates when it fails; any other record is passed over |
| WifiManager.Manager.InitWifi | src/wifi_manager.c:52-53 | bring-up sets station mode and starts the driver |
| WifiManager.Manager.CreateAp | src/wifi_manager.c:152-169 | AP creation requests the AP interface, AP mode and the fixed AP configuration, and changes nothing else |
| CryptoPrice.FindMember | src/crypto_price.c:57-60 | the member found is the first whose name matches ignoring ASCII case, and None means none matches |
| CryptoPrice.FindMemberIgnoresCase | src/crypto_price.c:57-60 | keys that differ only in ASCII case find the same member |
| CryptoPrice.GetObjectItemIgnoresCase | src/crypto_price.c:57-60 | object lookup gives the same item for keys equal ignoring case |
| CryptoPrice.ReadLength | src/crypto_price.c:51 | the read returns at most `max` bytes, and a positive count exactly when a non-empty body could be read |
| CryptoPrice.ResponseTerminatorOverrunWitness | src/crypto_price.c:50-53 | as written, a 1024-byte response makes the terminator index 1024 |
| CryptoPrice.ResponseTerminatorInBounds | src/crypto_price.c:50-53 | with the corrected read limit the terminator index is inside the buffer |
| CryptoPrice.Extract | src/crypto_price.c:57-66 | a quote exists exactly when the crypto's object has both the currency and `24h_change`; its symbol is the crypto cut to 9 characters |
| CryptoPrice.FetchSpec | src/crypto_price.c:32-77 | a fetch gives a quote exactly when the transport succeeds, the read is positive, the text parses and both fields are present |
| CryptoPrice.ExtractOfPriceObject | src/crypto_price.c:57-66 | the service's answer for the pair gives its price and change, whatever the key case |
| CryptoPrice.NoChangeNoQuote | src/crypto_price.c:60-62 | without `24h_change` there is no quote |
| CryptoPrice.RequestUrl | src/crypto_price.c:34-37 | the URL is a prefix of the template of at most 255 characters |
| CryptoPrice.RequestUrlComplete | src/crypto_price.c:34-37 | settings that fit their buffers are never cut off |
| CryptoPrice.RequestUrlInjective | src/crypto_price.c:34-37 | `&`-free settings that give the same URL are the same pair |
| CryptoPrice.ReadSetting | src/crypto_price.c:15-26 | the stored string replaces the current value only when the store opens and holds a string that fits; otherwise the value stays |
| CryptoPrice.InitOverrunWitness | src/crypto_price.c:18-23 | as written, a stored "bitcoin-cash" writes 13 bytes into the 10-byte buffer |
| App.InitReadsSavedSettings | src/crypto_price.c:15-26 | a store written by a save never overruns either buffer and reads back the saved pair |
| CryptoPrice.PriceData.constructor | src/crypto_price.h:4-8 | the price record holds the given quote |
| CryptoPrice.Selection.constructor | src/crypto_price.c:10-11 | the pair starts as "BTC" and "USD" |
| CryptoPrice.Selection.Init | src/crypto_price.c:13-30 | start-up applies the checked override to both settings, and both keep within their buffers |
| CryptoPrice.Selection.ReadResponse | src/crypto_price.c:50-51 | the bytes read land at the start of the buffer |
| CryptoPrice.Selection.Fetch | src/crypto_price.c:32-77 | the fetch returns whether the specification gives a quote, writes that quote on success, and leaves `price_data` untouched otherwise |
| App.InitNvs | src/main.c:17-22 | the store starts as it was on a clean init, is erased once and restarted on NO_FREE_PAGES or NEW_VERSION_FOUND, and any other failure aborts |
| App.ErasedStoreHasNoCredentials | src/main.c:17-28 | after an erase the station stage asks nothing of the radio and fails |
| App.TryCandidatesOkIffConnected | src/wifi_manager.c:139-149 | from a disconnected radio the open-network tries succeed exactly when they leave it connected |
| App.BootModes | src/main.c:28-37 | the device ends in AP mode exactly when it is not connected, and then its last requests bring up the access point |
| App.BootOrder | src/main.c:28-37 | a successful station connect ends the bootstrap with no scan; otherwise the scan starts right after the station attempt, and the networks configured are the stored one with WPA2 (when there are credentials) and then open networks of the scan, in order |
| App.ScanFollowsStation | src/main.c:28-32 | the scan start is the first request after the station attempt, and the access point's requests come after the scan's |
| App.BringUpWifi | src/main.c:24-37 | the network bring-up ends in AP mode exactly as the bootstrap specification says, whether or not the store opens |
| App.RefreshIntervalS | src/main.c:55-60 | the interval is the stored u32 when the store opens and holds one, and 60 otherwise |
| App.ReadInterval | src/main.c:55-60 | the read gives the stored interval when the store opens and holds one, and 60 otherwise |
| App.SavedIntervalDelay | src/main.c:62 | the wait after a save is the saved interval times 1000 modulo 2^32, and exact up to 4294967 s |
| App.DelayWrapWitness | src/main.c:62 | an interval of 4294968 s becomes a 704 ms wait |
| App.SuccessesProperties | src/main.c:48-52 | each quote shown comes from a successful cycle: none when all fail, all when all succeed |
| App.SuccessIndices | src/main.c:47-52 | the successful cycles, each exactly once, in increasing order |
| App.SuccessesInOrder | src/main.c:47-52 | the quotes shown are the successful cycles' quotes, one per successful cycle, in cycle order |
| App.SuccessCount | src/main.c:47-52 | as many quotes are shown as there are successful cycles |
| App.ShownProperties | src/main.c:47-63 | every quote shown is for the selected crypto and comes from a successful fetch of one cycle |
| App.StationStep | src/main.c:47-52 | each cycle adds its own quote, when it has one, after those of the cycles before it |
| App.RunCycle | src/main.c:48-62 | one cycle shows the quote exactly when the fetch specification gives one, keeps `price_data` otherwise, and waits the re-read interval |
| App.RunStation | src/main.c:47-63 | the loop shows exactly the successful cycles' quotes, waits the re-read interval every cycle, and leaves the last shown quote in `price_data` |
| App.AppMain | src/main.c:14-65 | an aborted store start does nothing; otherwise the bootstrap decides the mode, the web server runs exactly in AP mode, `init_crypto_price` selects the pair in both modes, and the poll loop (its quotes, and its waits of the re-read interval) runs exactly outside AP mode |
| App.OpenReadOnly | src/main.c:57 | a read-only open gives the started store exactly when the namespace opens |
| App.SavedConfigurationUsedAtNextBoot | src/main.c:28-40 | after a save, the next start uses the saved credentials and fetches the saved pair with an uncut URL |

## Left out

- ESP-IDF calls are modelled only by their outcomes. This covers `esp_netif_*`, the event loop, `esp_wifi_init`, the handler registration, `httpd_start` with its URI registration, and `nvs_open`/`nvs_close`. An `ESP_ERROR_CHECK` abort on any of them other than the NVS start is not modelled.
- `root_handler`, the HTML template, `stop_webserver` and `start_webserver`'s internals are not modelled. The page is a static send, and the server start is the `serverRunning` result of `App.AppMain`.
- Concurrency between the event handler and the waiting loops is not modelled. Events arrive as one batch before each check of the flag.
- `vTaskDelay` ticks are counted as milliseconds. `pdMS_TO_TICKS` depends on the tick rate, which is not part of this model.
- `esp_restart` is a terminal step.
- `update_display` and the SSD1306 driver are not modelled. A display is modelled by the quote handed to it.
- The `float` conversion of `valuedouble` is not modelled, and neither is `%.2f` formatting. Prices are reals.
- `cJSON_Parse` and HTTP/TLS are oracles. The HTTP status is not looked at by the code and is not modelled.
- The endless `while (1)` loop is modelled for a given number of cycles.
- WifiManager.Manager.InitWifi: the netif and driver initialisation before `esp_wifi_set_mode` is not modelled. Only the two requests the rest of the model depends on are kept.
- WifiManager.Manager.IsWifiConnected is a plain read of the flag and has no contract of its own.
- The 33-byte `memcpy` of a scan record's SSID into the 32-byte station SSID is not modelled, because the driver's structure layouts are not part of this model.
- CLib.Atoi is unbounded and does not model `int` overflow for numerals beyond 2^31−1.
- `strtok_r` writes NULs into `buf` in place. The model computes the same tokens on an immutable string.
- CryptoPrice.Selection.Fetch: `strncpy` into `symbol[10]` copies at most 9 characters and never writes `symbol[9]`. `price_data` is an uninitialised local of `app_main` (src/main.c:45), so after a 9-character crypto `symbol[9]` is indeterminate and the `%s` of `update_display` (src/crypto_price.c:86) can read past the end of `symbol`. The model keeps the copied string only and does not capture that read. The crypto buffer holds at most 9 characters, so the copy is always whole.
- CryptoPrice.Selection.Init models the corrected, size-checked read. The as-written read of a value of any length is `CryptoPrice.BytesWrittenAsWritten` (see Findings).
- CryptoPrice.Selection.Fetch reads at most 1023 bytes (the corrected limit). The as-written 1024 is `CryptoPrice.READ_LIMIT_AS_WRITTEN` (see Findings).
- WebServer.DecodeValue models the corrected 63-byte bound. The as-written behaviour is the witness listed under Findings.
- WebServer.SaveSpec rejects `contentLen >= 1024`, the corrected check, while the code rejects only `content_len > 1024` (src/webserver.c:132). The as-written check is `WebServer.AcceptsLengthAsWritten`, with its witness under Findings. `WebServer.SaveHandler` follows `SaveSpec`.
- WebServer.Persist: the code ignores the results of the five `nvs_set_*` calls (src/webserver.c:152-156) and of `nvs_commit`, and the model treats every write as succeeding. A write that fails (a full partition, say) is not modelled.
- App.AppMain: whether the read-only `nvs_open` succeeds is one parameter, `namespaceOpens`, for the whole start-up, shared by the station connect, `init_crypto_price` and every interval read of the loop, since nothing writes the store between those opens.

## Findings

| source | as written | input that shows it | evidently intended | confidence | as-written member | corrected member |
|---|---|---|---|---|---|---|
| src/webserver.c:88-99 | the decoder writes `decoded_value[decoded_len++]` with no bound | a value of 65 plain characters writes 65 bytes into `decoded_value[64]` | stop at 63 decoded bytes, keeping the terminator | not executed | WebServerProperties.DecodeOverrunWitness | WebServer.DecodeValue |
| src/webserver.c:132-142 | `remaining > sizeof(buf)` lets a 1024-byte body through, then `buf[ret] = '\0'` | Content-Length 1024 with 1024 bytes received writes `buf[1024]` | reject `content_len >= 1024` | not executed | WebServer.BodyTerminatorOverrunWitness | WebServer.AcceptedBodyLeavesRoomForTerminator |
| src/crypto_price.c:50-53 | `esp_http_client_read(client, response_buffer, 1024)` then `response_buffer[response_len] = 0` | a response body of 1024 bytes or more writes index 1024 of a 1024-byte allocation | read at most 1023 bytes | not executed | CryptoPrice.ResponseTerminatorOverrunWitness | CryptoPrice.ResponseTerminatorInBounds |
| src/crypto_price.c:18-23 | the size query's `required_size` is passed as the buffer length of the 10- and 4-byte buffers | a stored crypto "bitcoin-cash" needs 13 bytes for `selected_crypto[10]` | read with the buffer's own size and keep the default when it does not fit | not executed | CryptoPrice.InitOverrunWitness | App.InitReadsSavedSettings |
