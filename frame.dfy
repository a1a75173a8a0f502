/**
 * The three frame values handed to callers, and the pixel-layout helpers the
 * capture engine applies to a cropped BGRA buffer: cropping at a pixel stride,
 * dropping the alpha byte, and dropping alpha while reversing the colour order.
 */
module Frame {
  import opened Primitives
  import opened Crop

  /** A frame in the native layout: four bytes per pixel, order B, G, R, A. */
  datatype BgraFrame = BgraFrame(displayTime: nat, width: nat, height: nat, data: seq<byte>)

  /** Three bytes per pixel, order B, G, R. */
  datatype BgrFrame = BgrFrame(displayTime: nat, width: nat, height: nat, data: seq<byte>)

  /** Three bytes per pixel, order R, G, B. */
  datatype RgbFrame = RgbFrame(displayTime: nat, width: nat, height: nat, data: seq<byte>)

  /**
   * Crops `height` rows of `width` four-byte pixels out of `data`, whose rows
   * start `curWidth` pixels (4 * curWidth bytes) apart.
   */
  function GetCroppedData(data: seq<byte>, curWidth: nat, height: nat, width: nat): (cropped: seq<byte>)
    requires width <= curWidth && height * (4 * curWidth) <= |data|
    ensures IsCrop(cropped, data, 4 * curWidth, 4 * width, height)
  {
    CropRowsIsCrop(data, 4 * curWidth, 4 * width, height);
    CropRows(data, 4 * curWidth, 4 * width, height)
  }

  /**
   * `bgr` keeps bytes 0, 1 and 2 of every complete four-byte pixel of `bgra`,
   * in order, and nothing else.
   */
  ghost predicate IsAlphaDropped(bgra: seq<byte>, bgr: seq<byte>)
  {
    && |bgr| == |bgra| / 4 * 3
    && forall p: nat, c: nat | p < |bgra| / 4 && c < 3 ::
         && Offset(p, 3, c) < |bgr|
         && Offset(p, 4, c) < |bgra|
         && bgr[Offset(p, 3, c)] == bgra[Offset(p, 4, c)]
  }

  /**
   * `rgb` holds bytes 2, 1 and 0 of every complete four-byte pixel of `bgra`,
   * in that order, and nothing else.
   */
  ghost predicate IsChannelReversed(bgra: seq<byte>, rgb: seq<byte>)
  {
    && |rgb| == |bgra| / 4 * 3
    && forall p: nat, c: nat | p < |bgra| / 4 && c < 3 ::
         && Offset(p, 3, c) < |rgb|
         && Offset(p, 4, 2 - c) < |bgra|
         && rgb[Offset(p, 3, c)] == bgra[Offset(p, 4, 2 - c)]
  }

  /** Drops the fourth (alpha) byte of every four-byte pixel. */
  function RemoveAlphaChannel(bgra: seq<byte>): (bgr: seq<byte>)
    ensures |bgr| == |bgra| / 4 * 3
    decreases |bgra|
  {
    if |bgra| < 4 then []
    else bgra[..3] + RemoveAlphaChannel(bgra[4..])
  }

  /** Drops the alpha byte of every pixel and reverses B, G, R into R, G, B. */
  function ConvertBgraToRgb(bgra: seq<byte>): (rgb: seq<byte>)
    ensures |rgb| == |bgra| / 4 * 3
    decreases |bgra|
  {
    if |bgra| < 4 then []
    else [bgra[2], bgra[1], bgra[0]] + ConvertBgraToRgb(bgra[4..])
  }

  lemma {:induction false} RemoveAlphaChannelDropsAlpha(bgra: seq<byte>)
    ensures IsAlphaDropped(bgra, RemoveAlphaChannel(bgra))
    decreases |bgra|
  {
    if |bgra| >= 4 {
      var rest := bgra[4..];
      RemoveAlphaChannelDropsAlpha(rest);
      var bgr := RemoveAlphaChannel(bgra);
      assert bgr == bgra[..3] + RemoveAlphaChannel(rest);
      forall p: nat, c: nat | p < |bgra| / 4 && c < 3
        ensures Offset(p, 3, c) < |bgr| && Offset(p, 4, c) < |bgra|
        ensures bgr[Offset(p, 3, c)] == bgra[Offset(p, 4, c)]
      {
        if p > 0 {
          assert Offset(p, 3, c) == 3 + Offset(p - 1, 3, c);
          assert Offset(p, 4, c) == 4 + Offset(p - 1, 4, c);
        }
      }
    }
  }

  lemma {:induction false} ConvertBgraToRgbReversesChannels(bgra: seq<byte>)
    ensures IsChannelReversed(bgra, ConvertBgraToRgb(bgra))
    decreases |bgra|
  {
    if |bgra| >= 4 {
      var rest := bgra[4..];
      ConvertBgraToRgbReversesChannels(rest);
      var rgb := ConvertBgraToRgb(bgra);
      assert rgb == [bgra[2], bgra[1], bgra[0]] + ConvertBgraToRgb(rest);
      forall p: nat, c: nat | p < |bgra| / 4 && c < 3
        ensures Offset(p, 3, c) < |rgb| && Offset(p, 4, 2 - c) < |bgra|
        ensures rgb[Offset(p, 3, c)] == bgra[Offset(p, 4, 2 - c)]
      {
        if p > 0 {
          assert Offset(p, 3, c) == 3 + Offset(p - 1, 3, c);
          assert Offset(p, 4, 2 - c) == 4 + Offset(p - 1, 4, 2 - c);
        }
      }
    }
  }

  /** The RGB layout is the BGR layout with the first and third byte of each pixel swapped. */
  lemma RgbIsSwappedBgr(bgra: seq<byte>)
    ensures |ConvertBgraToRgb(bgra)| == |RemoveAlphaChannel(bgra)|
    ensures forall p: nat, c: nat | p < |bgra| / 4 && c < 3 ::
              && Offset(p, 3, c) < |RemoveAlphaChannel(bgra)|
              && ConvertBgraToRgb(bgra)[Offset(p, 3, c)] == RemoveAlphaChannel(bgra)[Offset(p, 3, 2 - c)]
  {
    RemoveAlphaChannelDropsAlpha(bgra);
    ConvertBgraToRgbReversesChannels(bgra);
  }
}
