/**
 * The relay server's HTTP handler (WebServer/src/ImageHandler.java).
 *
 * The handler keeps the most recent JPEG and the most recent sensor text and
 * dispatches every exchange on its request method and its exact Content-Type
 * header: a POST overwrites one of the two fields, a GET serves one of them.
 */
module Relay {
  import opened Common

  const ImageJpeg := "image/jpeg"
  const TextPlain := "text/plain; charset=UTF-8"
  /** The initial value of the handler's local response string; no branch ever sends it. */
  const NoMessage := "No message"
  const StoredAck := "This posted message has been stored in the mostRecentTextData string."
  const NothingPosted := "No new message has been posted yet"

  /** An HTTP exchange as the handler sees it: method, first Content-Type header (if any), body. */
  datatype Exchange = Exchange(requestMethod: string, contentType: Option<string>, body: seq<Byte>)

  datatype Body = Bytes(bytes: seq<Byte>) | Text(text: string)

  /**
   * A response: the status and length passed to sendResponseHeaders, and what
   * is written. The length is that argument as given; for the server library
   * a 0 means chunked encoding of any length, so for the empty bodies it is
   * the argument, not a byte count, that equals the body's length.
   */
  datatype Response = Response(status: int, declaredLength: int, body: Body)

  /** Fault is an exception escaping handle (a null dereference). */
  datatype Outcome = Responded(response: Response) | NoResponse | Fault

  /** The handler's two fields; None is Java's null. */
  datatype Store = Store(image: Option<seq<Byte>>, reading: Option<string>)

  /** Both fields are null when the handler is created. */
  const Initial := Store(None, None)

  datatype Transition = Transition(next: Store, outcome: Outcome)

  /** Which of the handler's four branches an exchange selects. */
  datatype Route = IngestImage | ServeImage | IngestReading | ServeReading | Unrouted | MissingHeader

  function BodyLength(b: Body): int
  {
    match b
    case Bytes(bs) => |bs|
    case Text(t) => |t|
  }

  /**
   * Exact string equality on the method and on the header decides the
   * branch; the header is consulted only once the method is POST or GET,
   * so a missing header faults only for those two methods.
   */
  function Classify(ex: Exchange): (r: Route)
    ensures r == IngestImage <==> ex.requestMethod == "POST" && ex.contentType == Some(ImageJpeg)
    ensures r == ServeImage <==> ex.requestMethod == "GET" && ex.contentType == Some(ImageJpeg)
    ensures r == IngestReading <==> ex.requestMethod == "POST" && ex.contentType == Some(TextPlain)
    ensures r == ServeReading <==> ex.requestMethod == "GET" && ex.contentType == Some(TextPlain)
    ensures r == MissingHeader <==> (ex.requestMethod == "POST" || ex.requestMethod == "GET") && ex.contentType.None?
  {
    var post := ex.requestMethod == "POST";
    if !post && ex.requestMethod != "GET" then Unrouted
    else match ex.contentType
      case None => MissingHeader
      case Some(t) =>
        if t == ImageJpeg then (if post then IngestImage else ServeImage)
        else if t == TextPlain then (if post then IngestReading else ServeReading)
        else Unrouted
  }

  /** The body bytes read one at a time, each byte value taken as a char code. */
  function Latin1(bs: seq<Byte>): (s: string)
    ensures |s| == |bs|
    ensures forall i :: 0 <= i < |bs| ==> s[i] == bs[i] as char
  {
    if bs == [] then "" else Latin1(bs[..|bs| - 1]) + [bs[|bs| - 1] as char]
  }

  /** The effect of one exchange on the store, and what the client receives. */
  function Step(s: Store, ex: Exchange): (t: Transition)
    ensures t.next.image != s.image ==> Classify(ex) == IngestImage
    ensures t.next.reading != s.reading ==> Classify(ex) == IngestReading
    ensures t.outcome.Responded? ==>
              t.outcome.response.status == 200 &&
              t.outcome.response.declaredLength == BodyLength(t.outcome.response.body)
    ensures t.outcome.Fault? <==> Classify(ex) == MissingHeader || (Classify(ex) == ServeImage && s.image.None?)
    ensures t.outcome.NoResponse? <==> Classify(ex) == Unrouted
  {
    match Classify(ex)
    case IngestImage =>
      Transition(s.(image := Some(ex.body)), Responded(Response(200, 0, Bytes([]))))
    case ServeImage =>
      if s.image.None? then Transition(s, Fault)
      else Transition(s, Responded(Response(200, |s.image.value|, Bytes(s.image.value))))
    case IngestReading =>
      Transition(s.(reading := Some(Latin1(ex.body))), Responded(Response(200, |StoredAck|, Text(StoredAck))))
    case ServeReading =>
      var text := if s.reading.None? then NothingPosted else s.reading.value;
      Transition(s, Responded(Response(200, |text|, Text(text))))
    case MissingHeader => Transition(s, Fault)
    case Unrouted => Transition(s, NoResponse)
  }

  /** The store after the exchanges are handled one after another, in order. */
  function Replay(s: Store, exs: seq<Exchange>): Store
    decreases |exs|
  {
    if exs == [] then s else Step(Replay(s, exs[..|exs| - 1]), exs[|exs| - 1]).next
  }

  // Properties of single exchanges.

  lemma IngestImageStores(s: Store, ex: Exchange)
    requires ex.requestMethod == "POST" && ex.contentType == Some(ImageJpeg)
    ensures Step(s, ex) == Transition(Store(Some(ex.body), s.reading), Responded(Response(200, 0, Bytes([]))))
  {
  }

  lemma ServeImageVerbatim(s: Store, ex: Exchange, stored: seq<Byte>)
    requires ex.requestMethod == "GET" && ex.contentType == Some(ImageJpeg)
    requires s.image == Some(stored)
    ensures Step(s, ex) == Transition(s, Responded(Response(200, |stored|, Bytes(stored))))
  {
  }

  lemma ServeMissingImageFaults(s: Store, ex: Exchange)
    requires ex.requestMethod == "GET" && ex.contentType == Some(ImageJpeg)
    requires s.image.None?
    ensures Step(s, ex) == Transition(s, Fault)
  {
  }

  lemma IngestReadingStores(s: Store, ex: Exchange)
    requires ex.requestMethod == "POST" && ex.contentType == Some(TextPlain)
    ensures var t := Step(s, ex);
      t.next.image == s.image && t.next.reading.Some? &&
      |t.next.reading.value| == |ex.body| &&
      (forall i :: 0 <= i < |ex.body| ==> t.next.reading.value[i] == ex.body[i] as char) &&
      t.outcome == Responded(Response(200, |StoredAck|, Text(StoredAck)))
  {
  }

  lemma ServeReadingOrPlaceholder(s: Store, ex: Exchange)
    requires ex.requestMethod == "GET" && ex.contentType == Some(TextPlain)
    ensures var text := if s.reading.Some? then s.reading.value else NothingPosted;
      Step(s, ex) == Transition(s, Responded(Response(200, |text|, Text(text))))
  {
  }

  /** Any pair outside the routing table changes nothing and is never answered. */
  lemma UnroutedIgnored(s: Store, ex: Exchange)
    requires (ex.requestMethod != "POST" && ex.requestMethod != "GET") ||
             (ex.contentType.Some? && ex.contentType.value != ImageJpeg && ex.contentType.value != TextPlain)
    ensures Step(s, ex) == Transition(s, NoResponse)
  {
  }

  /** A header without the charset suffix selects no branch. */
  lemma ContentTypeIsExact(s: Store, requestMethod: string, body: seq<Byte>)
    ensures Step(s, Exchange(requestMethod, Some("text/plain"), body)) == Transition(s, NoResponse)
  {
    assert "text/plain" != TextPlain by { assert |"text/plain"| != |TextPlain|; }
    assert "text/plain" != ImageJpeg by { assert "text/plain"[0] != ImageJpeg[0]; }
  }

  /** A missing header faults for POST and GET before any field is touched. */
  lemma MissingHeaderFaults(s: Store, ex: Exchange)
    requires ex.requestMethod == "POST" || ex.requestMethod == "GET"
    requires ex.contentType.None?
    ensures Step(s, ex) == Transition(s, Fault)
  {
  }

  // Properties of sequences of exchanges.

  lemma {:induction false} ImageKeptWithoutIngest(s: Store, exs: seq<Exchange>)
    requires forall j :: 0 <= j < |exs| ==> Classify(exs[j]) != IngestImage
    ensures Replay(s, exs).image == s.image
    decreases |exs|
  {
    if exs != [] {
      ImageKeptWithoutIngest(s, exs[..|exs| - 1]);
    }
  }

  lemma {:induction false} ReadingKeptWithoutIngest(s: Store, exs: seq<Exchange>)
    requires forall j :: 0 <= j < |exs| ==> Classify(exs[j]) != IngestReading
    ensures Replay(s, exs).reading == s.reading
    decreases |exs|
  {
    if exs != [] {
      ReadingKeptWithoutIngest(s, exs[..|exs| - 1]);
    }
  }

  /** The store holds the body of the last image POST, whatever else was handled after it. */
  lemma {:induction false} LastImageKept(s: Store, exs: seq<Exchange>, k: nat)
    requires k < |exs| && Classify(exs[k]) == IngestImage
    requires forall j :: k < j < |exs| ==> Classify(exs[j]) != IngestImage
    ensures Replay(s, exs).image == Some(exs[k].body)
    decreases |exs|
  {
    if k < |exs| - 1 {
      LastImageKept(s, exs[..|exs| - 1], k);
    }
  }

  /** After image POSTs P1..Pn with anything but image POSTs in between, a GET for the image serves Pn. */
  lemma {:induction false} OverwriteSemantics(s: Store, exs: seq<Exchange>, k: nat, get: Exchange)
    requires k < |exs| && Classify(exs[k]) == IngestImage
    requires forall j :: k < j < |exs| ==> Classify(exs[j]) != IngestImage
    requires get.requestMethod == "GET" && get.contentType == Some(ImageJpeg)
    ensures Step(Replay(s, exs), get).outcome == Responded(Response(200, |exs[k].body|, Bytes(exs[k].body)))
  {
    LastImageKept(s, exs, k);
  }

  lemma {:induction false} LastReadingKept(s: Store, exs: seq<Exchange>, k: nat)
    requires k < |exs| && Classify(exs[k]) == IngestReading
    requires forall j :: k < j < |exs| ==> Classify(exs[j]) != IngestReading
    ensures Replay(s, exs).reading == Some(Latin1(exs[k].body))
    decreases |exs|
  {
    if k < |exs| - 1 {
      LastReadingKept(s, exs[..|exs| - 1], k);
    }
  }

  /** A GET for the text serves the decoded body of the last text POST. */
  lemma {:induction false} LatestReadingServed(s: Store, exs: seq<Exchange>, k: nat, get: Exchange)
    requires k < |exs| && Classify(exs[k]) == IngestReading
    requires forall j :: k < j < |exs| ==> Classify(exs[j]) != IngestReading
    requires get.requestMethod == "GET" && get.contentType == Some(TextPlain)
    ensures var text := Latin1(exs[k].body);
      Step(Replay(s, exs), get).outcome == Responded(Response(200, |text|, Text(text)))
  {
    LastReadingKept(s, exs, k);
  }

  /** From a fresh handler, a GET for the image before any image POST faults. */
  lemma {:induction false} ImageRequestedTooEarly(exs: seq<Exchange>, get: Exchange)
    requires forall j :: 0 <= j < |exs| ==> Classify(exs[j]) != IngestImage
    requires get.requestMethod == "GET" && get.contentType == Some(ImageJpeg)
    ensures Step(Replay(Initial, exs), get).outcome == Fault
  {
    ImageKeptWithoutIngest(Initial, exs);
  }

  /** From a fresh handler, a GET for the text before any text POST serves the placeholder. */
  lemma {:induction false} ReadingRequestedTooEarly(exs: seq<Exchange>, get: Exchange)
    requires forall j :: 0 <= j < |exs| ==> Classify(exs[j]) != IngestReading
    requires get.requestMethod == "GET" && get.contentType == Some(TextPlain)
    ensures Step(Replay(Initial, exs), get).outcome ==
            Responded(Response(200, |NothingPosted|, Text(NothingPosted)))
  {
    ReadingKeptWithoutIngest(Initial, exs);
  }

  /** The StringBuilder loop of the text branch: one char per body byte. */
  method ReadText(body: seq<Byte>) returns (s: string)
    ensures s == Latin1(body)
  {
    s := "";
    var i := 0;
    while i < |body|
      invariant 0 <= i <= |body|
      invariant s == Latin1(body[..i])
    {
      var c := body[i] as char;
      assert body[..i + 1][..i] == body[..i];
      s := s + [c];
      i := i + 1;
    }
    assert body[..i] == body;
  }

  class ImageHandler {
    var mostRecentFileBytes: Option<seq<Byte>>
    var mostRecentTextData: Option<string>

    function State(): Store
      reads this
    {
      Store(mostRecentFileBytes, mostRecentTextData)
    }

    constructor ()
      ensures State() == Initial
    {
      mostRecentFileBytes := None;
      mostRecentTextData := None;
    }

    /** The four sequential branches of handle, each guarded by a short-circuit test. */
    method Handle(ex: Exchange) returns (outcome: Outcome)
      modifies this
      ensures Transition(State(), outcome) == Step(old(State()), ex)
    {
      var response := NoMessage;
      outcome := NoResponse;

      // POST image/jpeg: keep the body bytes, answer with an empty body.
      if ex.requestMethod == "POST" {
        if ex.contentType.None? { return Fault; }
        if ex.contentType.value == ImageJpeg {
          var fileBytes := ex.body;
          mostRecentFileBytes := Some(fileBytes);
          outcome := Responded(Response(200, 0, Bytes([])));
        }
      }

      // GET image/jpeg: serve the stored bytes; a null field is dereferenced.
      if ex.requestMethod == "GET" {
        if ex.contentType.None? { return Fault; }
        if ex.contentType.value == ImageJpeg {
          if mostRecentFileBytes.None? { return Fault; }
          var stored := mostRecentFileBytes.value;
          outcome := Responded(Response(200, |stored|, Bytes(stored)));
        }
      }

      // POST text/plain; charset=UTF-8: keep the body as text, acknowledge.
      if ex.requestMethod == "POST" {
        if ex.contentType.None? { return Fault; }
        if ex.contentType.value == TextPlain {
          var text := ReadText(ex.body);
          mostRecentTextData := Some(text);
          response := StoredAck;
          outcome := Responded(Response(200, |response|, Text(response)));
        }
      }

      // GET text/plain; charset=UTF-8: serve the stored text or the placeholder.
      if ex.requestMethod == "GET" {
        if ex.contentType.None? { return Fault; }
        if ex.contentType.value == TextPlain {
          if mostRecentTextData.None? {
            response := NothingPosted;
          } else {
            response := mostRecentTextData.value;
          }
          outcome := Responded(Response(200, |response|, Text(response)));
        }
      }
    }
  }
}
