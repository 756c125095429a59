/** The two pure rules inside src/App.tsx: the hard-coded content check of
    `validateFile` and the video-source choice of `setVideo`. */
module App {
  import opened Validation

  /** The one rejection reason of `validateFile` once the file has been read. */
  const ContentMismatch := "File content does not match allowed formats."

  /** The header each type is checked against. */
  const PngHeader: seq<int> := [0x89, 0x50, 0x4E, 0x47]
  const PdfHeader: seq<int> := [0x25, 0x50, 0x44, 0x46]

  /** The arrow function passed to `allowedTypes.some`: JPEG is the header
      `FF D8` plus the trailer `FF D9`, PNG and PDF are a 4-byte prefix, and
      every other type string fails. */
  function TypeCheck(t: string, buf: seq<Byte>): (r: bool)
    ensures t == "image/jpeg" ==>
      (r <==> |buf| >= 2 && buf[0] == 0xFF && buf[1] == 0xD8 &&
              buf[|buf| - 2] == 0xFF && buf[|buf| - 1] == 0xD9)
    ensures t == "image/png" ==> (r <==> |buf| >= 4 && buf[..4] == PngHeader)
    ensures t == "application/pdf" ==> (r <==> |buf| >= 4 && buf[..4] == PdfHeader)
    ensures t != "image/jpeg" && t != "image/png" && t != "application/pdf" ==> !r
  {
    if t == "image/jpeg" then
      ReadIs(buf, 0, 0xFF) && ReadIs(buf, 1, 0xD8) &&
      ReadIs(buf, |buf| - 2, 0xFF) && ReadIs(buf, |buf| - 1, 0xD9)
    else if t == "image/png" then
      HeaderLemma(buf, PngHeader);
      ReadIs(buf, 0, 0x89) && ReadIs(buf, 1, 0x50) && ReadIs(buf, 2, 0x4E) && ReadIs(buf, 3, 0x47)
    else if t == "application/pdf" then
      HeaderLemma(buf, PdfHeader);
      ReadIs(buf, 0, 0x25) && ReadIs(buf, 1, 0x50) && ReadIs(buf, 2, 0x44) && ReadIs(buf, 3, 0x46)
    else
      false
  }

  /** Four in-range reads that each match are the same as a 4-byte prefix. */
  lemma HeaderLemma(buf: seq<Byte>, h: seq<int>)
    requires |h| == 4
    ensures (ReadIs(buf, 0, h[0]) && ReadIs(buf, 1, h[1]) &&
             ReadIs(buf, 2, h[2]) && ReadIs(buf, 3, h[3])) <==>
            (|buf| >= 4 && buf[..4] == h)
  {
    if |buf| >= 4 && buf[..4] == h {
      assert buf[..4][0] == buf[0] && buf[..4][1] == buf[1];
      assert buf[..4][2] == buf[2] && buf[..4][3] == buf[3];
    }
    if |buf| >= 4 && buf[0] == h[0] && buf[1] == h[1] && buf[2] == h[2] && buf[3] == h[3] {
      assert buf[..4] == h;
    }
  }

  /** `allowedTypes.some(check)`: left to right, stopping at the first type
      that passes. */
  function AnyTypeMatches(allowedTypes: seq<string>, buf: seq<Byte>): (r: bool)
    ensures r <==> exists i :: 0 <= i < |allowedTypes| && TypeCheck(allowedTypes[i], buf)
    decreases |allowedTypes|
  {
    if allowedTypes == [] then
      false
    else if TypeCheck(allowedTypes[0], buf) then
      true
    else
      var rest := AnyTypeMatches(allowedTypes[1..], buf);
      assert rest <==> exists i :: 1 <= i < |allowedTypes| && TypeCheck(allowedTypes[i], buf) by {
        if rest {
          var j :| 0 <= j < |allowedTypes[1..]| && TypeCheck(allowedTypes[1..][j], buf);
          assert allowedTypes[j + 1] == allowedTypes[1..][j];
        }
        forall i | 1 <= i < |allowedTypes| && TypeCheck(allowedTypes[i], buf) ensures rest {
          assert allowedTypes[1..][i - 1] == allowedTypes[i];
        }
      }
      rest
  }

  /** The decision of `validateFile` once the file's bytes are read. */
  function ValidateFile(buf: seq<Byte>, allowedTypes: seq<string>): (v: Verdict)
    ensures v.Accepted? <==>
      exists i :: 0 <= i < |allowedTypes| && TypeCheck(allowedTypes[i], buf)
    ensures v.Rejected? ==> v.reason == ContentMismatch
  {
    if AnyTypeMatches(allowedTypes, buf) then Accepted else Rejected(ContentMismatch)
  }

  /** The verdict depends only on the set of allowed types: not on their
      order, not on duplicates. */
  lemma ValidateFileDependsOnlyOnTypeSet(buf: seq<Byte>, a: seq<string>, b: seq<string>)
    requires forall t :: t in a <==> t in b
    ensures ValidateFile(buf, a) == ValidateFile(buf, b)
  {
    if ValidateFile(buf, a).Accepted? {
      var i :| 0 <= i < |a| && TypeCheck(a[i], buf);
      assert a[i] in b;
      var j :| 0 <= j < |b| && b[j] == a[i];
    }
    if ValidateFile(buf, b).Accepted? {
      var j :| 0 <= j < |b| && TypeCheck(b[j], buf);
      assert b[j] in a;
      var i :| 0 <= i < |a| && a[i] == b[j];
    }
  }

  /** `handleFileChange` allows only `image/jpeg`: a file passes iff it starts
      with `FF D8` and ends with `FF D9`. */
  lemma JpegOnlyUpload(buf: seq<Byte>)
    ensures ValidateFile(buf, ["image/jpeg"]).Accepted? <==>
      |buf| >= 2 && buf[..2] == [0xFF, 0xD8] && buf[|buf| - 2..] == [0xFF, 0xD9]
  {
    if |buf| >= 2 {
      assert buf[..2][0] == buf[0] && buf[..2][1] == buf[1];
      assert buf[|buf| - 2..][0] == buf[|buf| - 2] && buf[|buf| - 2..][1] == buf[|buf| - 1];
      if buf[0] == 0xFF && buf[1] == 0xD8 && buf[|buf| - 2] == 0xFF && buf[|buf| - 1] == 0xD9 {
        assert buf[..2] == [0xFF, 0xD8];
        assert buf[|buf| - 2..] == [0xFF, 0xD9];
      }
    }
  }

  /** No check reads a byte that is not there: an empty buffer fails every
      type, so `validateFile` rejects it. */
  lemma EmptyBufferRejected(allowedTypes: seq<string>)
    ensures ValidateFile([], allowedTypes) == Rejected(ContentMismatch)
  {
    forall i | 0 <= i < |allowedTypes| ensures !TypeCheck(allowedTypes[i], []) {
    }
  }

  // ---------------------------------------------------------------------------
  // setVideo

  const SmallVideo := "https://www.w3schools.com/html/mov_bbb.mp4"
  const MidVideo := "https://www.learningcontainer.com/wp-content/uploads/2020/05/sample-mp4-file.mp4"
  const LargeVideo := "https://storage.googleapis.com/gtv-videos-bucket/sample/BigBuckBunny.mp4"

  /** A `navigator` property that may be `undefined`. */
  datatype Reading<T> = Missing | Present(value: T)
  {
    /** `reading ?? default` */
    function OrDefault(default: T): T
    {
      match this
      case Missing => default
      case Present(v) => v
    }
  }

  datatype VideoSize = Small | Mid | Large

  /** The order of the three sizes, smallest first. */
  function Rank(s: VideoSize): nat
  {
    match s
    case Small => 0
    case Mid => 1
    case Large => 2
  }

  function UrlOf(s: VideoSize): string
  {
    match s
    case Small => SmallVideo
    case Mid => MidVideo
    case Large => LargeVideo
  }

  /** The `if / else if / else` chain of `setVideo` on the readings after
      their defaults are applied. */
  function SizeFor(memory: real, cpuCores: int, connectionType: string): (s: VideoSize)
    ensures s == Small <==>
      memory < 4.0 || cpuCores <= 2 || connectionType == "2g" || connectionType == "3g"
    ensures s == Large <==>
      memory >= 4.0 && cpuCores >= 4 && connectionType != "2g" && connectionType != "3g"
    ensures s == Mid <==>
      memory >= 4.0 && cpuCores == 3 && connectionType != "2g" && connectionType != "3g"
  {
    if memory < 4.0 || cpuCores <= 2 || connectionType == "2g" || connectionType == "3g" then
      Small
    else if memory >= 4.0 && cpuCores >= 4 then
      Large
    else
      Mid
  }

  /** More memory or more cores on the same connection never gives a
      smaller video. */
  lemma SizeForMonotone(m: real, c: int, m': real, c': int, connectionType: string)
    requires m <= m' && c <= c'
    ensures Rank(SizeFor(m, c, connectionType)) <= Rank(SizeFor(m', c', connectionType))
  {
  }

  /** What `setVideo` does: the URL given to `setVideoSrc` and the one given
      to `sentMsg`. */
  datatype VideoUpdate = VideoUpdate(videoSrc: string, sentMessage: string)

  function SetVideo(deviceMemory: Reading<real>, hardwareConcurrency: Reading<int>,
                    effectiveType: Reading<string>): (u: VideoUpdate)
    ensures u.videoSrc == u.sentMessage
    ensures u.videoSrc == SmallVideo || u.videoSrc == MidVideo || u.videoSrc == LargeVideo
    ensures deviceMemory.Missing? || hardwareConcurrency.Missing? ==> u.videoSrc == SmallVideo
    ensures u.videoSrc == LargeVideo <==>
      deviceMemory.Present? && deviceMemory.value >= 4.0 &&
      hardwareConcurrency.Present? && hardwareConcurrency.value >= 4 &&
      effectiveType != Present("2g") && effectiveType != Present("3g")
  {
    var memory := deviceMemory.OrDefault(0.0);
    var cpuCores := hardwareConcurrency.OrDefault(0);
    var connectionType := effectiveType.OrDefault("4g");
    var url := UrlOf(SizeFor(memory, cpuCores, connectionType));
    VideoUpdate(url, url)
  }

  /** A missing connection reading is treated as `4g`. */
  lemma MissingConnectionIs4g(deviceMemory: Reading<real>, hardwareConcurrency: Reading<int>)
    ensures SetVideo(deviceMemory, hardwareConcurrency, Missing) ==
            SetVideo(deviceMemory, hardwareConcurrency, Present("4g"))
  {
  }

  /** Each URL belongs to exactly one size, so the URL sent tells the size
      chosen. */
  lemma UrlOfInjective(s: VideoSize, s': VideoSize)
    ensures UrlOf(s) == UrlOf(s') <==> s == s'
  {
  }
}
