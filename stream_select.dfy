/** Selection of the video stream: the first stream, in the container's
    declaration order, whose codec parameters say it is video. All three C
    programs run the same search loop over `formatContext->streams`. */
module StreamSelect {
  import opened Media

  /** Reference definition of the search: the index of the first video
      stream, or -1 when there is none. */
  function FirstVideoIndex(types: seq<MediaType>): (r: int)
    ensures -1 <= r < |types|
    ensures r == -1 <==> forall j :: 0 <= j < |types| ==> types[j] != Video
    ensures r >= 0 ==> types[r] == Video && forall j :: 0 <= j < r ==> types[j] != Video
    decreases |types|
  {
    if types == [] then -1
    else if types[0] == Video then 0
    else
      var rest := FirstVideoIndex(types[1..]);
      if rest == -1 then -1 else rest + 1
  }

  /** The `for` loop with `break` that sets `videoStreamIndex`; `types[i]`
      is `streams[i]->codecpar->codec_type` and `|types|` is `nb_streams`. */
  method FindVideoStream(types: seq<MediaType>) returns (videoStreamIndex: int)
    ensures -1 <= videoStreamIndex < |types|
    ensures videoStreamIndex == -1 <==> forall j :: 0 <= j < |types| ==> types[j] != Video
    ensures videoStreamIndex >= 0 ==>
              types[videoStreamIndex] == Video &&
              forall j :: 0 <= j < videoStreamIndex ==> types[j] != Video
    ensures videoStreamIndex == FirstVideoIndex(types)
  {
    videoStreamIndex := -1;
    for i := 0 to |types|
      invariant videoStreamIndex == -1
      invariant forall j :: 0 <= j < i ==> types[j] != Video
    {
      if types[i] == Video {
        videoStreamIndex := i;
        break;
      }
    }
  }

  /** Streams of other media types placed around the video streams do not
      change the choice as long as the first video stream keeps its place. */
  lemma {:induction false} SelectionIgnoresOtherStreams(types: seq<MediaType>, rest: seq<MediaType>)
    requires FirstVideoIndex(types) >= 0
    ensures FirstVideoIndex(types + rest) == FirstVideoIndex(types)
  {
    var r := FirstVideoIndex(types);
    assert (types + rest)[r] == Video;
    assert forall j :: 0 <= j < r ==> (types + rest)[j] == types[j];
  }
}
