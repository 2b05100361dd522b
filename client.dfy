/**
 * The viewing client (ImageViewerClient/src/Main.java): a bounded-retry GET
 * for the image and for the temperature reading, and the decision, at
 * start-up and on each cycle, whether to show the fetched pair.
 *
 * The network is a function from the attempt index to what that attempt
 * produced; JPEG decoding, the Celsius-to-Fahrenheit conversion and the
 * current date are parameters.
 */
module Client {
  import opened Common

  /** The attempt ceiling of both fetch loops. */
  const MaxAttempts: nat := 100
  /** What the reading fetch returns once every attempt has timed out. */
  const NoReading := "No reading"

  /** What one call to HttpClient.send produced. */
  datatype Attempt<T> = Timeout | Ok(payload: T) | OtherError

  /** How a retry loop ended: `at` is the index of the attempt that ended it. */
  datatype Fetched<T> = Got(payload: T, at: nat) | Raised(at: nat) | Exhausted
  {
    /**
     * The number of requests the loop sends: Fetch counts its calls and
     * ensures they equal this, and OnlyPrefixMatters shows that no response
     * after them is consulted.
     */
    function Attempts(): nat
    {
      if Exhausted? then MaxAttempts else at + 1
    }
  }

  /** A Java call: it returned a value, or an exception escaped it. */
  datatype Call<V> = Returned(value: V) | Threw

  datatype Request = ImageGet | ReadingGet

  /** The values of main's two locals after both fetches; None is null. */
  datatype Snapshot<Img> = Snapshot(image: Option<Img>, reading: Option<string>)

  /** What the viewer window shows. */
  datatype Screen<Img> = Screen(image: Img, caption: string)

  /** The retry loop from attempt i on: timeouts are retried, anything else ends it. */
  function Poll<T>(respond: nat -> Attempt<T>, i: nat): Fetched<T>
    requires i <= MaxAttempts
    decreases MaxAttempts - i
  {
    if i == MaxAttempts then Exhausted
    else match respond(i)
      case Timeout => Poll(respond, i + 1)
      case Ok(p) => Got(p, i)
      case OtherError => Raised(i)
  }

  /** Poll ends at the first attempt from i on that does not time out, or after the ceiling. */
  lemma {:induction false} PollFirstAnswer<T>(respond: nat -> Attempt<T>, i: nat)
    requires i <= MaxAttempts
    ensures var r := Poll(respond, i);
      (r.Exhausted? <==> forall j :: i <= j < MaxAttempts ==> respond(j).Timeout?) &&
      (!r.Exhausted? ==>
         i <= r.at < MaxAttempts &&
         (forall j :: i <= j < r.at ==> respond(j).Timeout?) &&
         (r.Got? ==> respond(r.at) == Ok(r.payload)) &&
         (r.Raised? ==> respond(r.at) == OtherError))
    decreases MaxAttempts - i
  {
    if i < MaxAttempts && respond(i).Timeout? {
      PollFirstAnswer(respond, i + 1);
    }
  }

  /** The number of requests sent is between 1 and the ceiling; the ceiling exactly when all time out. */
  lemma AttemptBound<T>(respond: nat -> Attempt<T>)
    ensures 1 <= Poll(respond, 0).Attempts() <= MaxAttempts
    ensures (forall j :: 0 <= j < MaxAttempts ==> respond(j).Timeout?) ==>
              Poll(respond, 0) == Exhausted && Poll(respond, 0).Attempts() == MaxAttempts
  {
    PollFirstAnswer(respond, 0);
  }

  /** If attempt k is the first that does not time out, the loop stops there after k + 1 requests. */
  lemma StopsAtFirstAnswer<T>(respond: nat -> Attempt<T>, k: nat)
    requires k < MaxAttempts
    requires forall j :: 0 <= j < k ==> respond(j).Timeout?
    requires !respond(k).Timeout?
    ensures Poll(respond, 0).Attempts() == k + 1
    ensures respond(k).Ok? ==> Poll(respond, 0) == Got(respond(k).payload, k)
    ensures respond(k).OtherError? ==> Poll(respond, 0) == Raised(k)
  {
    PollFirstAnswer(respond, 0);
  }

  /** The counted loop shared by both fetches. */
  method Fetch<T>(respond: nat -> Attempt<T>) returns (r: Fetched<T>, sent: nat)
    ensures r == Poll(respond, 0)
    ensures sent == r.Attempts()
  {
    var i := 0;
    sent := 0;
    while i < MaxAttempts
      invariant i <= MaxAttempts
      invariant sent == i
      invariant Poll(respond, i) == Poll(respond, 0)
    {
      var answer := respond(i);
      sent := sent + 1;
      match answer {
        case Ok(p) => return Got(p, i), sent;
        case OtherError => return Raised(i), sent;
        case Timeout =>
      }
      i := i + 1;
    }
    return Exhausted, sent;
  }

  /**
   * The loop's result depends only on the responses to the requests it
   * sends: two networks that agree on those give the same result, so no
   * further attempt follows the one that ends the loop.
   */
  lemma {:induction false} OnlyPrefixMatters<T>(r1: nat -> Attempt<T>, r2: nat -> Attempt<T>, i: nat)
    requires i <= MaxAttempts
    requires forall j :: i <= j < Poll(r1, i).Attempts() ==> r1(j) == r2(j)
    ensures Poll(r1, i) == Poll(r2, i)
    decreases MaxAttempts - i
  {
    if i < MaxAttempts {
      PollFirstAnswer(r1, i);
      assert r1(i) == r2(i);
      if r1(i).Timeout? {
        OnlyPrefixMatters(r1, r2, i + 1);
      }
    }
  }

  /** getImageFromServer: the first answer is decoded; after the ceiling, null. */
  function ImageFetch<Img>(imageNet: nat -> Attempt<seq<Byte>>, decode: seq<Byte> -> Option<Img>): Call<Option<Img>>
  {
    match Poll(imageNet, 0)
    case Got(bytes, _) => Returned(decode(bytes))
    case Raised(_) => Threw
    case Exhausted => Returned(None)
  }

  /** getTemperatureReadingFromServer: the first answer's body; after the ceiling, the sentinel text. */
  function ReadingFetch(readingNet: nat -> Attempt<string>): (r: Call<Option<string>>)
    ensures r.Returned? ==> r.value.Some?
    ensures r.Threw? <==> Poll(readingNet, 0).Raised?
  {
    match Poll(readingNet, 0)
    case Got(text, _) => Returned(Some(text))
    case Raised(_) => Threw
    case Exhausted => Returned(Some(NoReading))
  }

  /** The call structure of getImageFromServer; ImageFetch is what it computes. */
  method GetImageFromServer<Img>(imageNet: nat -> Attempt<seq<Byte>>, decode: seq<Byte> -> Option<Img>)
    returns (image: Call<Option<Img>>, sent: nat)
    ensures image == ImageFetch(imageNet, decode)
    ensures sent == Poll(imageNet, 0).Attempts()
  {
    var r;
    r, sent := Fetch(imageNet);
    match r
    case Got(bytes, _) => image := Returned(decode(bytes));
    case Raised(_) => image := Threw;
    case Exhausted => image := Returned(None);
  }

  /** The call structure of getTemperatureReadingFromServer; ReadingFetch is what it computes. */
  method GetTemperatureReadingFromServer(readingNet: nat -> Attempt<string>)
    returns (reading: Call<Option<string>>, sent: nat)
    ensures reading == ReadingFetch(readingNet)
    ensures sent == Poll(readingNet, 0).Attempts()
  {
    var r;
    r, sent := Fetch(readingNet);
    match r
    case Got(text, _) => reading := Returned(Some(text));
    case Raised(_) => reading := Threw;
    case Exhausted => reading := Returned(Some(NoReading));
  }

  /** If every attempt times out, both fetches send exactly the ceiling of requests and return their sentinels. */
  lemma ExhaustedFetchesGiveSentinels<Img>(imageNet: nat -> Attempt<seq<Byte>>, decode: seq<Byte> -> Option<Img>,
                                           readingNet: nat -> Attempt<string>)
    requires forall j :: 0 <= j < MaxAttempts ==> imageNet(j).Timeout?
    requires forall j :: 0 <= j < MaxAttempts ==> readingNet(j).Timeout?
    ensures ImageFetch(imageNet, decode) == Returned(None) && Poll(imageNet, 0).Attempts() == MaxAttempts
    ensures ReadingFetch(readingNet) == Returned(Some(NoReading)) && Poll(readingNet, 0).Attempts() == MaxAttempts
  {
    AttemptBound(imageNet);
    AttemptBound(readingNet);
  }

  /** An answer that does not decode gives null at once: no further attempt is made. */
  lemma UndecodableImageNotRetried<Img>(imageNet: nat -> Attempt<seq<Byte>>, decode: seq<Byte> -> Option<Img>, k: nat)
    requires k < MaxAttempts
    requires forall j :: 0 <= j < k ==> imageNet(j).Timeout?
    requires imageNet(k).Ok? && decode(imageNet(k).payload).None?
    ensures ImageFetch(imageNet, decode) == Returned(None)
    ensures Poll(imageNet, 0).Attempts() == k + 1
  {
    StopsAtFirstAnswer(imageNet, k);
  }

  /** Only timeouts are retried: the first other transport error escapes the fetch. */
  lemma OtherErrorEscapes<Img>(imageNet: nat -> Attempt<seq<Byte>>, decode: seq<Byte> -> Option<Img>,
                               readingNet: nat -> Attempt<string>, k: nat, m: nat)
    requires k < MaxAttempts && m < MaxAttempts
    requires forall j :: 0 <= j < k ==> imageNet(j).Timeout?
    requires imageNet(k).OtherError?
    requires forall j :: 0 <= j < m ==> readingNet(j).Timeout?
    requires readingNet(m).OtherError?
    ensures ImageFetch(imageNet, decode) == Threw && Poll(imageNet, 0).Attempts() == k + 1
    ensures ReadingFetch(readingNet) == Threw && Poll(readingNet, 0).Attempts() == m + 1
  {
    StopsAtFirstAnswer(imageNet, k);
    StopsAtFirstAnswer(readingNet, m);
  }

  // One start-up or one cycle of main.

  function Repeat(r: Request, n: nat): (s: seq<Request>)
    ensures |s| == n && forall i :: 0 <= i < n ==> s[i] == r
  {
    seq(n, _ => r)
  }

  /** Both fetches, image first; an exception in the image fetch means the reading is never requested. */
  function Fetches<Img>(imageNet: nat -> Attempt<seq<Byte>>, decode: seq<Byte> -> Option<Img>,
                        readingNet: nat -> Attempt<string>): (r: Call<Snapshot<Img>>)
    ensures r.Returned? ==> r.value.reading.Some?
    ensures r.Returned? ==> ImageFetch(imageNet, decode) == Returned(r.value.image)
  {
    match ImageFetch(imageNet, decode)
    case Threw => Threw
    case Returned(image) =>
      match ReadingFetch(readingNet)
      case Threw => Threw
      case Returned(reading) => Returned(Snapshot(image, reading))
  }

  /** The requests one start-up or cycle sends, in order. */
  function Requests(imageNet: nat -> Attempt<seq<Byte>>, readingNet: nat -> Attempt<string>): seq<Request>
  {
    Repeat(ImageGet, Poll(imageNet, 0).Attempts()) +
    (if Poll(imageNet, 0).Raised? then [] else Repeat(ReadingGet, Poll(readingNet, 0).Attempts()))
  }

  /** Every image request comes before every reading request, and at most the two ceilings are sent. */
  lemma ImageFetchedFirst(imageNet: nat -> Attempt<seq<Byte>>, readingNet: nat -> Attempt<string>)
    ensures var log := Requests(imageNet, readingNet);
      1 <= |log| <= 2 * MaxAttempts && log[0] == ImageGet &&
      forall i, j :: 0 <= i < j < |log| && log[j] == ImageGet ==> log[i] == ImageGet
  {
    AttemptBound(imageNet);
    AttemptBound(readingNet);
  }

  /**
   * Main's two fetch calls in order, with the log of the requests they send
   * built from the counts the loops report; Fetches is what it computes.
   */
  method FetchBoth<Img>(imageNet: nat -> Attempt<seq<Byte>>, decode: seq<Byte> -> Option<Img>,
                        readingNet: nat -> Attempt<string>)
    returns (snapshot: Call<Snapshot<Img>>, log: seq<Request>)
    ensures snapshot == Fetches(imageNet, decode, readingNet)
    ensures log == Requests(imageNet, readingNet)
  {
    var image, imageSent := GetImageFromServer(imageNet, decode);
    log := Repeat(ImageGet, imageSent);
    if image.Threw? {
      return Threw, log;
    }
    var reading, readingSent := GetTemperatureReadingFromServer(readingNet);
    log := log + Repeat(ReadingGet, readingSent);
    if reading.Threw? {
      return Threw, log;
    }
    snapshot := Returned(Snapshot(image.value, reading.value));
  }

  /** The caption main builds: the converted reading, then the date; None if the conversion throws. */
  function Caption(convert: string -> Option<string>, reading: string, stamp: string): Option<string>
  {
    match convert(reading)
    case None => None
    case Some(f) => Some(f + " - " + stamp)
  }

  /**
   * The start-up decision: open the viewer only if both locals are non-null;
   * otherwise return from main. Returned(None) is that return.
   */
  function Opening<Img>(snapshot: Call<Snapshot<Img>>, convert: string -> Option<string>, stamp: string)
    : (r: Call<Option<Screen<Img>>>)
    ensures r.Returned? && r.value.Some? ==>
              snapshot.Returned? && snapshot.value.image == Some(r.value.value.image)
    ensures snapshot.Returned? && snapshot.value.image.None? ==> r == Returned(None)
    ensures snapshot.Threw? ==> r.Threw?
  {
    match snapshot
    case Threw => Threw
    case Returned(Snapshot(image, reading)) =>
      if image.Some? && reading.Some? then
        match Caption(convert, reading.value, stamp)
        case None => Threw
        case Some(caption) => Returned(Some(Screen(image.value, caption)))
      else Returned(None)
  }

  /** A later cycle: update the viewer only if both locals are non-null; otherwise keep what it shows. */
  function Refresh<Img>(shown: Screen<Img>, snapshot: Call<Snapshot<Img>>, convert: string -> Option<string>, stamp: string)
    : (r: Call<Screen<Img>>)
    ensures r.Returned? && r.value != shown ==>
              snapshot.Returned? && snapshot.value.image == Some(r.value.image)
    ensures snapshot.Returned? && snapshot.value.image.None? ==> r == Returned(shown)
    ensures snapshot.Threw? ==> r.Threw?
  {
    match snapshot
    case Threw => Threw
    case Returned(Snapshot(image, reading)) =>
      if image.Some? && reading.Some? then
        match Caption(convert, reading.value, stamp)
        case None => Threw
        case Some(caption) => Returned(Screen(image.value, caption))
      else Returned(shown)
  }

  /** Lines 116-125 of main: fetch both, then open the viewer or return (the decision is Opening). */
  method Startup<Img>(imageNet: nat -> Attempt<seq<Byte>>, decode: seq<Byte> -> Option<Img>,
                      readingNet: nat -> Attempt<string>, convert: string -> Option<string>, stamp: string)
    returns (window: Call<Option<Screen<Img>>>, log: seq<Request>)
    ensures window == Opening(Fetches(imageNet, decode, readingNet), convert, stamp)
    ensures log == Requests(imageNet, readingNet)
  {
    var snapshot;
    snapshot, log := FetchBoth(imageNet, decode, readingNet);
    window := Opening(snapshot, convert, stamp);
  }

  /** One pass of main's endless loop, after the sleep (the decision is Refresh). */
  method Cycle<Img>(shown: Screen<Img>, imageNet: nat -> Attempt<seq<Byte>>, decode: seq<Byte> -> Option<Img>,
                    readingNet: nat -> Attempt<string>, convert: string -> Option<string>, stamp: string)
    returns (next: Call<Screen<Img>>, log: seq<Request>)
    ensures next == Refresh(shown, Fetches(imageNet, decode, readingNet), convert, stamp)
    ensures log == Requests(imageNet, readingNet)
  {
    var snapshot;
    snapshot, log := FetchBoth(imageNet, decode, readingNet);
    next := Refresh(shown, snapshot, convert, stamp);
  }

  /**
   * Since the reading fetch never yields null, whether start-up returns
   * without a window depends on the image alone.
   */
  lemma StartupQuitsIffNoImage<Img>(imageNet: nat -> Attempt<seq<Byte>>, decode: seq<Byte> -> Option<Img>,
                                    readingNet: nat -> Attempt<string>, convert: string -> Option<string>, stamp: string)
    ensures Opening(Fetches(imageNet, decode, readingNet), convert, stamp) == Returned(None) <==>
            ImageFetch(imageNet, decode) == Returned(None) && !Poll(readingNet, 0).Raised?
  {
  }

  /**
   * At start-up a non-null image opens the window with the converted
   * reading and the date, or throws exactly when the conversion does.
   */
  lemma StartupOpensWithImage<Img>(imageNet: nat -> Attempt<seq<Byte>>, decode: seq<Byte> -> Option<Img>,
                                   readingNet: nat -> Attempt<string>, convert: string -> Option<string>,
                                   stamp: string, img: Img)
    requires ImageFetch(imageNet, decode) == Returned(Some(img))
    requires !Poll(readingNet, 0).Raised?
    ensures Opening(Fetches(imageNet, decode, readingNet), convert, stamp) ==
            match convert(ReadingFetch(readingNet).value.value)
            case None => Threw
            case Some(f) => Returned(Some(Screen(img, f + " - " + stamp)))
  {
  }

  /**
   * A cycle silently keeps the old screen when no image came back, and
   * otherwise shows the new image with the converted reading.
   */
  lemma CycleUpdatesOnlyWithImage<Img>(shown: Screen<Img>, imageNet: nat -> Attempt<seq<Byte>>,
                                       decode: seq<Byte> -> Option<Img>, readingNet: nat -> Attempt<string>,
                                       convert: string -> Option<string>, stamp: string)
    requires !Poll(readingNet, 0).Raised?
    ensures ImageFetch(imageNet, decode) == Returned(None) ==>
              Refresh(shown, Fetches(imageNet, decode, readingNet), convert, stamp) == Returned(shown)
    ensures ImageFetch(imageNet, decode).Returned? && ImageFetch(imageNet, decode).value.Some? ==>
              Refresh(shown, Fetches(imageNet, decode, readingNet), convert, stamp) ==
              match Caption(convert, ReadingFetch(readingNet).value.value, stamp)
              case None => Threw
              case Some(c) => Returned(Screen(ImageFetch(imageNet, decode).value.value, c))
  {
  }

  /**
   * When the image arrives but every reading attempt times out, the sentinel
   * text itself is handed to the conversion.
   */
  lemma SentinelReachesConversion<Img>(imageNet: nat -> Attempt<seq<Byte>>, decode: seq<Byte> -> Option<Img>,
                                       readingNet: nat -> Attempt<string>, convert: string -> Option<string>,
                                       stamp: string, img: Img)
    requires ImageFetch(imageNet, decode) == Returned(Some(img))
    requires forall j :: 0 <= j < MaxAttempts ==> readingNet(j).Timeout?
    ensures Opening(Fetches(imageNet, decode, readingNet), convert, stamp) ==
            match Caption(convert, NoReading, stamp)
            case None => Threw
            case Some(c) => Returned(Some(Screen(img, c)))
  {
    AttemptBound(readingNet);
  }
}
