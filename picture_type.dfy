/** The picture-type `switch` of read_h264.cpp, which labels each decoded
    frame by its `pict_type`. */
module PictureType {

  // enum AVPictureType (libavutil/avutil.h)
  const AV_PICTURE_TYPE_NONE: int := 0
  const AV_PICTURE_TYPE_I: int := 1
  const AV_PICTURE_TYPE_P: int := 2
  const AV_PICTURE_TYPE_B: int := 3
  const AV_PICTURE_TYPE_S: int := 4
  const AV_PICTURE_TYPE_SI: int := 5
  const AV_PICTURE_TYPE_SP: int := 6
  const AV_PICTURE_TYPE_BI: int := 7

  /** The label printed after "Frame Type:". */
  datatype Label = IFrame | PFrame | BFrame | Other

  function Classify(pictType: int): (l: Label)
    ensures l == IFrame <==> pictType == AV_PICTURE_TYPE_I
    ensures l == PFrame <==> pictType == AV_PICTURE_TYPE_P
    ensures l == BFrame <==> pictType == AV_PICTURE_TYPE_B
    ensures l == Other <==> pictType !in {AV_PICTURE_TYPE_I, AV_PICTURE_TYPE_P, AV_PICTURE_TYPE_B}
  {
    if pictType == AV_PICTURE_TYPE_I then IFrame
    else if pictType == AV_PICTURE_TYPE_P then PFrame
    else if pictType == AV_PICTURE_TYPE_B then BFrame
    else Other
  }

  /** The kinds of slice that `slice_type` names in section 7.4.3 of ITU-T
      H.264 (Table 7-6): values 0..4 and 5..9 name P, B, I, SP and SI. */
  datatype SliceKind = PSlice | BSlice | ISlice | SPSlice | SISlice

  function SliceKindOf(sliceType: int): (k: SliceKind)
    requires 0 <= sliceType <= 9
    ensures sliceType % 5 == 2 <==> k == ISlice
  {
    [PSlice, BSlice, ISlice, SPSlice, SISlice][sliceType % 5]
  }

  /** An assumed table of the picture type FFmpeg's H.264 decoder reports
      for a picture made of one kind of slice; the switching slice kinds have
      picture types of their own. This is library behaviour: read_h264.cpp
      never sees a slice type, only the `pict_type` the decoder sets. */
  function PictTypeOf(k: SliceKind): int
  {
    match k
    case PSlice => AV_PICTURE_TYPE_P
    case BSlice => AV_PICTURE_TYPE_B
    case ISlice => AV_PICTURE_TYPE_I
    case SPSlice => AV_PICTURE_TYPE_SP
    case SISlice => AV_PICTURE_TYPE_SI
  }

  /** Under the assumed decoder table `PictTypeOf`, over every H.264
      `slice_type`, the three labelled kinds get their own label and the
      switching slices SP and SI are reported as "Other". */
  lemma {:induction false} SliceTypesLabelled(sliceType: int)
    requires 0 <= sliceType <= 9
    ensures var l := Classify(PictTypeOf(SliceKindOf(sliceType)));
            (l == IFrame <==> sliceType in {2, 7}) &&
            (l == PFrame <==> sliceType in {0, 5}) &&
            (l == BFrame <==> sliceType in {1, 6}) &&
            (l == Other <==> sliceType in {3, 4, 8, 9})
  {
  }
}
