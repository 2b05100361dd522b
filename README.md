# ESP32 camera relay: handler dispatch and client polling, in Dafny

This project models the two pieces of sequential logic of a store-and-forward relay for a
camera's latest JPEG and latest temperature reading.

- `relay.dfy` (module `Relay`): the server's `ImageHandler`. It keeps two fields, the last
  posted image bytes and the last posted sensor text. Each HTTP exchange is classified by its
  request method and its exact `Content-Type` header. A POST overwrites one field; a GET serves
  one field. The class `Relay.ImageHandler` has the two fields, and `Handle` follows the
  source's four sequential `if`s, including their short-circuit header reads. `Handle` is
  proved equal to the pure transition `Step`, which dispatches through `Classify`. The
  properties are lemmas about `Step` and about `Replay`, the store after a sequence of
  exchanges.
- `client.dfy` (module `Client`): the viewer's bounded-retry fetches and the start-up and
  per-cycle display decision. `Fetch` is the counted loop shared by `GetImageFromServer` and
  `GetTemperatureReadingFromServer`, proved equal to the recursive specification `Poll`.
  The network is a function from attempt index to `Timeout | Ok(payload) | OtherError`.
  `Fetches`, `Opening` and `Refresh` describe one start-up and one pass of the endless loop.
- `common.dfy` (module `Common`): `Byte` and `Option` (with `None` standing for Java's `null`).

Parameters stand for what the model cannot see: `decode` for `ImageIO.read` (a partial
function, `None` for null), `convert` for `celciusToFarenheit` (`None` when it throws), and
`stamp` for the text of `new Date()`.

Behaviour of the code that a reader might not expect, kept as written:
- An exchange that matches no branch gets no response at all. The `"No message"` default is
  assigned but never sent (`Relay.UnroutedIgnored`).
- A GET for the image before any image was posted dereferences null, so it is a `Fault`. The
  model does not return an absence sentinel (`Relay.ImageRequestedTooEarly`).
- A POST or GET without a `Content-Type` header also faults.
- At start-up the client returns without a window only when the image is null. The reading
  fetch never yields null, so the reading guard is always true. After
  all reading attempts time out, the sentinel `"No reading"` itself is handed to the conversion.

## Model

| member | source | states |
|---|---|---|
| Relay.Classify | WebServer/src/ImageHandler.java:38-73 | each of the four branches fires exactly when the method and the header equal its pair; a missing header faults only for POST and GET |
| Relay.Latin1 | WebServer/src/ImageHandler.java:58-65 | the stored text has one char per body byte, the i-th char having the i-th byte's value as its code |
| Relay.ReadText | WebServer/src/ImageHandler.java:57-64 | the byte-reading loop builds exactly that text |
| Relay.Step | WebServer/src/ImageHandler.java:32-85 | only an image POST changes the image field, only a text POST changes the text field; every response has status 200 and a declared length equal to its body's; a fault happens exactly for a missing header or an image GET while no image is stored; no response exactly for unrouted pairs |
| Relay.ImageHandler.Handle | WebServer/src/ImageHandler.java:32-85 | the four sequential branches leave the fields and give the outcome that `Step` describes, so at most one branch acts |
| Relay.ImageHandler.constructor | WebServer/src/ImageHandler.java:22-23 | both fields start null |
| Relay.IngestImageStores | WebServer/src/ImageHandler.java:38-46 | an image POST stores the body byte for byte, keeps the text, and answers 200 with an empty body |
| Relay.ServeImageVerbatim | WebServer/src/ImageHandler.java:48-53 | an image GET changes nothing and answers 200 with the stored bytes, declaring their length |
| Relay.ServeMissingImageFaults | WebServer/src/ImageHandler.java:22-49 | an image GET while no image is stored is a fault, not a response |
| Relay.IngestReadingStores | WebServer/src/ImageHandler.java:56-71 | a text POST stores one char per body byte, keeps the image, and answers with the fixed acknowledgement |
| Relay.ServeReadingOrPlaceholder | WebServer/src/ImageHandler.java:73-84 | a text GET changes nothing and answers with the stored text, or the placeholder when none was stored |
| Relay.UnroutedIgnored | WebServer/src/ImageHandler.java:35-73 | any other pair changes no field and sends nothing; the default message is never sent |
| Relay.ContentTypeIsExact | WebServer/src/ImageHandler.java:38-56 | `text/plain` without the charset suffix matches no branch, for any method |
| Relay.MissingHeaderFaults | WebServer/src/ImageHandler.java:38-48 | a POST or GET without a `Content-Type` header faults and changes nothing |
| Relay.ImageKeptWithoutIngest | WebServer/src/ImageHandler.java:41 | exchanges other than image POSTs never change the stored image |
| Relay.ReadingKeptWithoutIngest | WebServer/src/ImageHandler.java:65 | exchanges other than text POSTs never change the stored text |
| Relay.LastImageKept | WebServer/src/ImageHandler.java:41 | after any sequence of exchanges, the stored image is the body of the last image POST |
| Relay.OverwriteSemantics | WebServer/src/ImageHandler.java:41-51 | after image POSTs P1..Pn with other exchanges interleaved, an image GET answers with Pn |
| Relay.LastReadingKept | WebServer/src/ImageHandler.java:65 | after any sequence of exchanges, the stored text is the decoded body of the last text POST |
| Relay.LatestReadingServed | WebServer/src/ImageHandler.java:65-84 | a text GET answers with the decoded body of the last text POST |
| Relay.ImageRequestedTooEarly | WebServer/src/ImageHandler.java:22-49 | from a fresh handler, an image GET before any image POST faults |
| Relay.ReadingRequestedTooEarly | WebServer/src/ImageHandler.java:23-76 | from a fresh handler, a text GET before any text POST answers with the placeholder |
| Client.PollFirstAnswer | ImageViewerClient/src/Main.java:48-68 | the loop ends at the first attempt that does not time out, with that attempt's payload or error, or after all 100 attempts time out |
| Client.AttemptBound | ImageViewerClient/src/Main.java:48-68 | between 1 and 100 requests are sent; exactly 100 when all of them time out |
| Client.StopsAtFirstAnswer | ImageViewerClient/src/Main.java:58-62 | if attempt k is the first without a timeout, k + 1 requests are sent and its answer is the result |
| Client.Fetch | ImageViewerClient/src/Main.java:48-67 | the counted loop computes what `Poll` specifies, and the number of requests it actually sends equals `Attempts()` of its result |
| Client.OnlyPrefixMatters | ImageViewerClient/src/Main.java:58-67 | the result depends only on the responses to the requests sent, so no attempt follows the one that ends the loop |
| Client.ReadingFetch | ImageViewerClient/src/Main.java:80-99 | the reading fetch never yields null, and throws exactly when its loop hit a non-timeout error |
| Client.GetImageFromServer | ImageViewerClient/src/Main.java:45-69 | returns the decoded first answer, null after 100 timeouts, or throws; reports the requests sent |
| Client.GetTemperatureReadingFromServer | ImageViewerClient/src/Main.java:78-100 | returns the first answer's body, `"No reading"` after 100 timeouts, or throws; reports the requests sent |
| Client.ExhaustedFetchesGiveSentinels | ImageViewerClient/src/Main.java:68-99 | after 100 timeouts each fetch has sent exactly 100 requests and returns null or `"No reading"` |
| Client.UndecodableImageNotRetried | ImageViewerClient/src/Main.java:60-62 | a first answer that does not decode yields null at once, with no further request |
| Client.OtherErrorEscapes | ImageViewerClient/src/Main.java:64-95 | a non-timeout error ends either loop at once and escapes it |
| Client.Fetches | ImageViewerClient/src/Main.java:116-117 | after both fetches the reading local is never null and the image local is the image fetch's result |
| Client.ImageFetchedFirst | ImageViewerClient/src/Main.java:116-131 | all image requests precede all reading requests, the first request is for the image, and at most 200 are sent |
| Client.FetchBoth | ImageViewerClient/src/Main.java:116-117 | fetches the image, then the reading; its request log, built from the counts the two loops report, is what `Requests` lists |
| Client.Opening | ImageViewerClient/src/Main.java:120-125 | a window opens only with a non-null image, which it shows; a null image returns from main |
| Client.Refresh | ImageViewerClient/src/Main.java:132-134 | a cycle changes the screen only to a non-null fetched image; a null image keeps the old screen |
| Client.Startup | ImageViewerClient/src/Main.java:116-125 | start-up gives what `Opening` decides on what the fetches return |
| Client.Cycle | ImageViewerClient/src/Main.java:129-134 | a cycle gives what `Refresh` decides on what the fetches return |
| Client.StartupQuitsIffNoImage | ImageViewerClient/src/Main.java:117-125 | start-up returns without a window exactly when the image is null and the reading fetch does not throw; the reading guard plays no part |
| Client.StartupOpensWithImage | ImageViewerClient/src/Main.java:120-121 | at start-up a non-null image opens the window with the converted reading and the date, and start-up throws exactly when the conversion does |
| Client.CycleUpdatesOnlyWithImage | ImageViewerClient/src/Main.java:130-134 | a cycle with a null image keeps the screen; with an image it shows it with the converted reading |
| Client.SentinelReachesConversion | ImageViewerClient/src/Main.java:99-121 | when every reading attempt times out, `"No reading"` is what the conversion receives |

## Left out

- `celciusToFarenheit` (floating-point parsing and formatting) is the parameter `convert`.
- `ImageIO.read` is the parameter `decode`; an `IOException` thrown while decoding is not modelled.
- HTTP transport: request builders, the proxy, the 1 s and 10 s timeouts, stream opening and closing, and `IOException` from the streams. The network is a function from attempt index to outcome.
- `Thread.sleep(2000)`, `new Date()` (the parameter `stamp`) and the log lines printed on each timeout.
- The endless `while(true)` loop is modelled as one `Cycle` step. The viewer window (`ImageViewer.java`) is `Screen`, a value.
- The server bootstrap (`WebServer/src/Main.java`) is not modelled; exchanges are handled one at a time.
- The unused field `textResponse` is not modelled.
- The image-before-reading order of the request log follows from the order of the two calls in `FetchBoth`, which the log concatenates; the network is not modelled as one shared stream of requests.
- Bodies are octet values 0..255. Java's signed `byte` representation is not modelled.
- Relay.Step: the byte count of a text response body depends on the platform charset (`getBytes()`). The model states the declared length against the string's char count.
