/**
 * The planar part of `process`: the interleaved rows libpng decodes are
 * split into one byte plane per channel, each plane is blurred by
 * `gaussian_blur` against one shared scratch plane, and the planes are
 * interleaved back into the rows.
 *
 * The rows are a two-dimensional array of `height` rows of
 * `width * channels` bytes; the pixel at row `i`, column `c` holds its
 * channel `k` at byte `c * channels + k`.
 */
module Process {
  import opened Numeric
  import opened BoxBlur
  import opened Gaussian

  // ---------------------------------------------------------------------
  // Specification
  // ---------------------------------------------------------------------

  /** The rows of `pixel_data`, as values. */
  ghost function Rows(p: array2<Byte>): (rows: seq<seq<int>>)
    reads p
    ensures |rows| == p.Length0 && forall i :: 0 <= i < |rows| ==> |rows[i]| == p.Length1
  {
    seq(p.Length0, i requires 0 <= i < p.Length0 reads p =>
      seq(p.Length1, j requires 0 <= j < p.Length1 reads p => p[i, j] as int))
  }

  /** Every row holds `width` pixels of `channels` bytes. */
  predicate RowsShaped(rows: seq<seq<int>>, width: int, channels: int)
  {
    forall i :: 0 <= i < |rows| ==> |rows[i]| == width * channels
  }

  /** Every byte of every row is in 0..255. */
  predicate RowsBytes(rows: seq<seq<int>>)
  {
    forall i :: 0 <= i < |rows| ==> AllBytes(rows[i])
  }

  /** Plane `k` of the rows: its cell `i * width + c` is channel `k` of pixel `c` in row `i`. */
  function Unpacked(rows: seq<seq<int>>, width: int, channels: int, k: int): (plane: seq<int>)
    requires width >= 1 && 0 <= k < channels && RowsShaped(rows, width, channels)
    ensures |plane| == |rows| * width
  {
    seq(|rows| * width, m requires 0 <= m < |rows| * width =>
      IndexRow(m, width, |rows|);
      CellIndex(m % width, k, channels, width);
      rows[m / width][m % width * channels + k])
  }

  /** The rows rebuilt from `channels` planes: byte `j` of row `i` is channel `j % channels` of pixel `j / channels`. */
  function Repacked(planes: seq<seq<int>>, width: int, height: int, channels: int): (rows: seq<seq<int>>)
    requires width >= 1 && height >= 0 && 1 <= channels <= |planes|
    requires forall k :: 0 <= k < channels ==> |planes[k]| == width * height
    ensures |rows| == height && RowsShaped(rows, width, channels)
  {
    seq(height, i requires 0 <= i < height =>
      seq(width * channels, j requires 0 <= j < width * channels =>
        IndexRow(j, channels, width);
        CellIndex(i, j / channels, width, height);
        planes[j % channels][i * width + j / channels]))
  }

  /** Cell `i * width + c` of plane `k` is byte `c * channels + k` of row `i`. */
  lemma UnpackedAt(rows: seq<seq<int>>, width: int, channels: int, k: int, i: int, c: int)
    requires width >= 1 && 0 <= k < channels && RowsShaped(rows, width, channels)
    requires 0 <= i < |rows| && 0 <= c < width
    ensures 0 <= i * width + c < |rows| * width && 0 <= c * channels + k < width * channels
    ensures Unpacked(rows, width, channels, k)[i * width + c] == rows[i][c * channels + k]
  {
    CellIndex(i, c, width, |rows|);
    RowMajor(i, c, width);
    CellIndex(c, k, channels, width);
  }

  /** Byte `c * channels + k` of row `i` of the repacked rows is cell `i * width + c` of plane `k`. */
  lemma RepackedAt(planes: seq<seq<int>>, width: int, height: int, channels: int, i: int, c: int, k: int)
    requires width >= 1 && height >= 0 && 1 <= channels <= |planes|
    requires forall k :: 0 <= k < channels ==> |planes[k]| == width * height
    requires 0 <= i < height && 0 <= c < width && 0 <= k < channels
    ensures 0 <= c * channels + k < width * channels && 0 <= i * width + c < width * height
    ensures Repacked(planes, width, height, channels)[i][c * channels + k] == planes[k][i * width + c]
  {
    CellIndex(c, k, channels, width);
    CellIndex(i, c, width, height);
    RowMajor(c, k, channels);
  }

  /** The planes of an unpacked image, one per channel. */
  function UnpackAll(rows: seq<seq<int>>, width: int, channels: int): (planes: seq<seq<int>>)
    requires width >= 1 && channels >= 1 && RowsShaped(rows, width, channels)
    ensures |planes| == channels
    ensures forall k :: 0 <= k < channels ==> |planes[k]| == |rows| * width
  {
    seq(channels, k requires 0 <= k < channels => Unpacked(rows, width, channels, k))
  }

  /** Repacking the unpacked planes gives back every byte of the rows. */
  lemma RepackUnpack(rows: seq<seq<int>>, width: int, channels: int)
    requires width >= 1 && channels >= 1 && RowsShaped(rows, width, channels)
    ensures Repacked(UnpackAll(rows, width, channels), width, |rows|, channels) == rows
  {
    var planes := UnpackAll(rows, width, channels);
    var back := Repacked(planes, width, |rows|, channels);
    forall i | 0 <= i < |rows|
      ensures back[i] == rows[i]
    {
      forall j | 0 <= j < width * channels
        ensures back[i][j] == rows[i][j]
      {
        IndexRow(j, channels, width);
        var c, k := j / channels, j % channels;
        RepackedAt(planes, width, |rows|, channels, i, c, k);
        UnpackedAt(rows, width, channels, k, i, c);
      }
    }
  }

  /** Unpacking the repacked rows gives back every plane. */
  lemma UnpackRepack(planes: seq<seq<int>>, width: int, height: int, channels: int)
    requires width >= 1 && height >= 0 && 1 <= channels <= |planes|
    requires forall k :: 0 <= k < channels ==> |planes[k]| == width * height
    ensures forall k :: 0 <= k < channels ==> Unpacked(Repacked(planes, width, height, channels), width, channels, k) == planes[k]
  {
    var rows := Repacked(planes, width, height, channels);
    forall k | 0 <= k < channels
      ensures Unpacked(rows, width, channels, k) == planes[k]
    {
      var plane := Unpacked(rows, width, channels, k);
      forall m | 0 <= m < width * height
        ensures plane[m] == planes[k][m]
      {
        IndexRow(m, width, height);
        var i, c := m / width, m % width;
        UnpackedAt(rows, width, channels, k, i, c);
        RepackedAt(planes, width, height, channels, i, c, k);
      }
    }
  }

  /** What `process` needs of the image: every channel plane can be blurred. */
  predicate ProcessDefined(rows: seq<seq<int>>, width: int, height: int, channels: int, sigma: int, strong: bool)
  {
    width >= 1 && channels >= 1 && |rows| == height && RowsShaped(rows, width, channels) &&
    forall k :: 0 <= k < channels ==> GaussianDefined(Unpacked(rows, width, channels, k), width, height, sigma, strong)
  }

  /**
   * The rows `process` writes back: the channel planes as `gaussian_blur`
   * leaves them, repacked. The scratch plane, where `box_blur_full` puts
   * its final result, is not written back.
   */
  function ProcessResult(rows: seq<seq<int>>, width: int, height: int, channels: int, sigma: int, strong: bool)
    : (out: seq<seq<int>>)
    requires ProcessDefined(rows, width, height, channels, sigma, strong)
    ensures |out| == height && RowsShaped(out, width, channels)
  {
    Repacked(BlurredPlanes(rows, width, height, channels, sigma, strong), width, height, channels)
  }

  /** The channel planes as `gaussian_blur` leaves them. */
  function BlurredPlanes(rows: seq<seq<int>>, width: int, height: int, channels: int, sigma: int, strong: bool)
    : (planes: seq<seq<int>>)
    requires ProcessDefined(rows, width, height, channels, sigma, strong)
    ensures |planes| == channels && forall k :: 0 <= k < channels ==> |planes[k]| == width * height
  {
    seq(channels, k requires 0 <= k < channels =>
      GaussianResult(Unpacked(rows, width, channels, k), width, height, sigma, strong).channel)
  }

  /**
   * With `radius == 1` (what a radius of 0 is normalised to) and without
   * the stronger blur, the first box has width 1, so the single pass has
   * radius 0 and the written image equals the decoded one.
   */
  lemma ProcessRadiusOneIsIdentity(rows: seq<seq<int>>, width: int, height: int, channels: int)
    requires width >= 1 && height >= 1 && channels >= 1 && |rows| == height
    requires RowsShaped(rows, width, channels) && RowsBytes(rows)
    ensures ProcessDefined(rows, width, height, channels, 1, false)
    ensures ProcessResult(rows, width, height, channels, 1, false) == rows
  {
    BoxPlanner.WidthsForSigmaOne();
    assert PassRadius(1, 0) == 0;
    forall k | 0 <= k < channels
      ensures GaussianDefined(Unpacked(rows, width, channels, k), width, height, 1, false)
      ensures GaussianResult(Unpacked(rows, width, channels, k), width, height, 1, false).channel
           == Unpacked(rows, width, channels, k)
    {
      var plane := Unpacked(rows, width, channels, k);
      forall m | 0 <= m < |plane|
        ensures IsByte(plane[m])
      {
        IndexRow(m, width, height);
        UnpackedAt(rows, width, channels, k, m / width, m % width);
      }
      FullPassZero(plane, width, height);
    }
    assert BlurredPlanes(rows, width, height, channels, 1, false) == UnpackAll(rows, width, channels);
    RepackUnpack(rows, width, channels);
  }

  /** With `sigma == 0` every pass has radius 0, so the written image equals the decoded one. */
  lemma ProcessZeroSigmaIsIdentity(rows: seq<seq<int>>, width: int, height: int, channels: int, strong: bool)
    requires width >= 1 && height >= 1 && channels >= 1 && |rows| == height
    requires RowsShaped(rows, width, channels) && RowsBytes(rows)
    ensures ProcessDefined(rows, width, height, channels, 0, strong)
    ensures ProcessResult(rows, width, height, channels, 0, strong) == rows
  {
    forall k | 0 <= k < channels
      ensures GaussianDefined(Unpacked(rows, width, channels, k), width, height, 0, strong)
      ensures GaussianResult(Unpacked(rows, width, channels, k), width, height, 0, strong).channel
           == Unpacked(rows, width, channels, k)
    {
      var plane := Unpacked(rows, width, channels, k);
      forall m | 0 <= m < |plane|
        ensures IsByte(plane[m])
      {
        IndexRow(m, width, height);
        UnpackedAt(rows, width, channels, k, m / width, m % width);
      }
      GaussianZeroSigma(plane, width, height, strong);
    }
    assert BlurredPlanes(rows, width, height, channels, 0, strong) == UnpackAll(rows, width, channels);
    RepackUnpack(rows, width, channels);
  }

  // ---------------------------------------------------------------------
  // `process`
  // ---------------------------------------------------------------------

  /**
   * The planes `in_channels[0..3]` and `buffer_channel`: all distinct; the
   * colour planes and the scratch plane hold `width * height` bytes, the
   * alpha plane as many when the image has four channels and none otherwise.
   */
  predicate PlanesShaped(inChannels: seq<array<Byte>>, buffer: array<Byte>, width: int, height: int, channels: int)
  {
    |inChannels| == 4 &&
    (forall a, b :: 0 <= a < b < 4 ==> inChannels[a] != inChannels[b]) &&
    (forall a :: 0 <= a < 4 ==> inChannels[a] != buffer) &&
    (forall a :: 0 <= a < 3 ==> inChannels[a].Length == width * height) &&
    inChannels[3].Length == (if channels == 4 then width * height else 0) &&
    buffer.Length == width * height
  }

  /** The current contents of the first `channels` planes. */
  ghost function Contents(inChannels: seq<array<Byte>>, channels: int): (planes: seq<seq<int>>)
    requires 0 <= channels <= |inChannels|
    reads set k | 0 <= k < |inChannels| :: inChannels[k]
    ensures |planes| == channels
  {
    seq(channels, k requires 0 <= k < channels reads set k | 0 <= k < |inChannels| :: inChannels[k] =>
      inChannels[k][..])
  }

  /** The allocations of `process`: `size = width * height`, `alphasize` is `size` only for four channels. */
  method AllocatePlanes(width: int, height: int, channels: int)
      returns (inChannels: seq<array<Byte>>, buffer: array<Byte>)
    requires width >= 1 && height >= 1 && width * height <= Int32Max
    ensures PlanesShaped(inChannels, buffer, width, height, channels)
    ensures forall a :: 0 <= a < 4 ==> fresh(inChannels[a])
    ensures fresh(buffer)
  {
    var size := width * height;
    var alphasize := if channels == 4 then size else 0;
    var red := new Byte[size];
    var green := new Byte[size];
    var blue := new Byte[size];
    var alpha := new Byte[alphasize];
    inChannels := [red, green, blue, alpha];
    buffer := new Byte[size];
  }

  /**
   * The unpack loop: row `i` starts at `counter == i * width`; the pixel
   * loop's only test is `c < width` (the comma expression discards
   * `j < width * channels`), with `j == c * channels`. Bytes `j`, `j + 1`,
   * `j + 2` go to planes 0..2, byte `j + 3` to the alpha plane only for
   * four channels.
   */
  method UnpackChannels(pixels: array2<Byte>, inChannels: seq<array<Byte>>, buffer: array<Byte>,
                        width: int, height: int, channels: int)
    requires channels == 3 || channels == 4
    requires width >= 1 && height >= 0
    requires PlanesShaped(inChannels, buffer, width, height, channels)
    requires pixels.Length0 == height && pixels.Length1 == width * channels
    modifies inChannels[0], inChannels[1], inChannels[2], inChannels[3]
    ensures forall k :: 0 <= k < channels ==> inChannels[k][..] == Unpacked(Rows(pixels), width, channels, k)
  {
    ghost var rows := Rows(pixels);
    ghost var planes := UnpackAll(rows, width, channels);
    var counter := 0;
    for i := 0 to height
      invariant counter == i * width && counter <= width * height
      invariant forall k, m :: 0 <= k < channels && 0 <= m < counter ==> inChannels[k][m] == planes[k][m]
    {
      NextRow(i, width, height);
      UnpackRow(pixels, inChannels, buffer, width, height, channels, i, counter, rows, planes);
      counter := counter + width;
    }
    PlanesFrom(inChannels, planes, channels, counter);
  }

  /** Arrays that agree with `planes` on all `size` cells hold exactly `planes`. */
  lemma PlanesFrom(inChannels: seq<array<Byte>>, planes: seq<seq<int>>, channels: int, size: int)
    requires 0 <= channels <= |inChannels| && |planes| == channels
    requires forall k :: 0 <= k < channels ==> inChannels[k].Length == |planes[k]| == size
    requires forall k, m :: 0 <= k < channels && 0 <= m < size ==> inChannels[k][m] == planes[k][m]
    ensures forall k :: 0 <= k < channels ==> inChannels[k][..] == planes[k]
  {
    forall k | 0 <= k < channels
      ensures inChannels[k][..] == planes[k]
    {
      assert forall m :: 0 <= m < size ==> inChannels[k][..][m] == planes[k][m];
    }
  }

  /**
   * One row of the unpack loop: fills cells `counter .. counter + width - 1`
   * of each plane, so that the planes agree with `planes` up to the end of row `i`.
   */
  method UnpackRow(pixels: array2<Byte>, inChannels: seq<array<Byte>>, buffer: array<Byte>,
                   width: int, height: int, channels: int, i: int, counter: int,
                   ghost rows: seq<seq<int>>, ghost planes: seq<seq<int>>)
    requires channels == 3 || channels == 4
    requires width >= 1 && 0 <= i < height && counter == i * width && counter + width <= width * height
    requires PlanesShaped(inChannels, buffer, width, height, channels)
    requires pixels.Length0 == height && pixels.Length1 == width * channels
    requires rows == Rows(pixels) && planes == UnpackAll(rows, width, channels)
    requires forall k, m :: 0 <= k < channels && 0 <= m < counter ==> inChannels[k][m] == planes[k][m]
    modifies inChannels[0], inChannels[1], inChannels[2], inChannels[3]
    ensures forall k, m :: 0 <= k < channels && 0 <= m < counter + width ==> inChannels[k][m] == planes[k][m]
  {
    var j, c := 0, 0;
    while c < width
      invariant 0 <= c <= width && j == c * channels && j <= width * channels
      invariant forall k, m :: 0 <= k < channels && 0 <= m < counter + c ==> inChannels[k][m] == planes[k][m]
    {
      UnpackCells(pixels, width, height, channels, i, c, j, counter + c, rows, planes);
      UnpackPixel(pixels, inChannels, buffer, width, height, channels, i, j, counter + c, planes);
      j, c := j + channels, c + 1;
    }
  }

  /**
   * The pixel at row `i`, column `c` of the rows: its bytes `j .. j + channels - 1`
   * are cell `n` of the unpacked planes.
   */
  lemma UnpackCells(pixels: array2<Byte>, width: int, height: int, channels: int, i: int, c: int, j: int, n: int,
                    rows: seq<seq<int>>, planes: seq<seq<int>>)
    requires channels >= 1 && width >= 1 && 0 <= i < height && 0 <= c < width
    requires j == c * channels && n == i * width + c
    requires pixels.Length0 == height && pixels.Length1 == width * channels
    requires rows == Rows(pixels) && planes == UnpackAll(rows, width, channels)
    ensures j + channels == (c + 1) * channels && j + channels <= width * channels && n < width * height
    ensures forall k :: 0 <= k < channels ==> planes[k][n] == pixels[i, j + k]
  {
    CellIndex(c, channels - 1, channels, width);
    CellIndex(i, c, width, height);
    forall k | 0 <= k < channels
      ensures planes[k][n] == pixels[i, j + k]
    {
      UnpackedAt(rows, width, channels, k, i, c);
    }
  }

  /**
   * One pixel of the unpack loop: bytes `j .. j + channels - 1` of row `i`
   * go to cell `n` of the planes, which `planes` says they should hold.
   */
  method UnpackPixel(pixels: array2<Byte>, inChannels: seq<array<Byte>>, buffer: array<Byte>,
                     width: int, height: int, channels: int, i: int, j: int, n: int, ghost planes: seq<seq<int>>)
    requires channels == 3 || channels == 4
    requires PlanesShaped(inChannels, buffer, width, height, channels)
    requires 0 <= i < pixels.Length0 && 0 <= j && j + channels <= pixels.Length1 && 0 <= n < width * height
    requires |planes| == channels && forall k :: 0 <= k < channels ==> |planes[k]| == width * height
    requires forall k :: 0 <= k < channels ==> planes[k][n] == pixels[i, j + k]
    modifies inChannels[0], inChannels[1], inChannels[2], inChannels[3]
    ensures forall k :: 0 <= k < channels ==> inChannels[k][n] == planes[k][n]
    ensures forall k, m :: 0 <= k < channels && 0 <= m < width * height && m != n ==> inChannels[k][m] == old(inChannels[k][m])
  {
    inChannels[0][n] := pixels[i, j];
    inChannels[1][n] := pixels[i, j + 1];
    inChannels[2][n] := pixels[i, j + 2];
    if channels == 4 {
      inChannels[3][n] := pixels[i, j + 3];
    }
  }

  /** The blur loop: `gaussian_blur` on planes `0 .. channels - 1`, each against the shared scratch plane. */
  method BlurChannels(inChannels: seq<array<Byte>>, buffer: array<Byte>, width: int, height: int, channels: int,
                      radius: int, strongerBlur: int)
    requires channels == 3 || channels == 4
    requires PlanesShaped(inChannels, buffer, width, height, channels)
    requires forall k :: 0 <= k < channels ==> GaussianDefined(inChannels[k][..], width, height, radius, strongerBlur != 0)
    modifies buffer, inChannels[0], inChannels[1], inChannels[2], inChannels[3]
    ensures forall k :: 0 <= k < channels ==>
      inChannels[k][..] == GaussianResult(old(inChannels[k][..]), width, height, radius, strongerBlur != 0).channel
  {
    for ch := 0 to channels
      invariant forall k :: 0 <= k < ch ==>
        inChannels[k][..] == GaussianResult(old(inChannels[k][..]), width, height, radius, strongerBlur != 0).channel
      invariant forall k :: ch <= k < 4 ==> inChannels[k][..] == old(inChannels[k][..])
    {
      GaussianBlur(inChannels[ch], buffer, width, height, radius, strongerBlur);
    }
  }

  /** The repack loop: the same cursors as the unpack loop, copying the planes back into the rows. */
  method RepackChannels(pixels: array2<Byte>, inChannels: seq<array<Byte>>, buffer: array<Byte>,
                        width: int, height: int, channels: int)
    requires channels == 3 || channels == 4
    requires width >= 1 && height >= 0
    requires PlanesShaped(inChannels, buffer, width, height, channels)
    requires pixels.Length0 == height && pixels.Length1 == width * channels
    modifies pixels
    ensures Rows(pixels) == Repacked(Contents(inChannels, channels), width, height, channels)
  {
    ghost var planes := Contents(inChannels, channels);
    ghost var packed := Repacked(planes, width, height, channels);
    assert forall k, m :: 0 <= k < channels && 0 <= m < width * height ==> planes[k][m] == inChannels[k][m];
    var counter := 0;
    for i := 0 to height
      invariant counter == i * width && counter <= width * height
      invariant forall i', j' :: 0 <= i' < i && 0 <= j' < width * channels ==> pixels[i', j'] == packed[i'][j']
    {
      NextRow(i, width, height);
      RepackRow(pixels, inChannels, buffer, width, height, channels, i, counter, planes, packed);
      counter := counter + width;
    }
    RowsFrom(pixels, packed);
  }

  /** A two-dimensional array that agrees with `rows` on every byte holds exactly `rows`. */
  lemma RowsFrom(pixels: array2<Byte>, rows: seq<seq<int>>)
    requires |rows| == pixels.Length0 && forall i :: 0 <= i < |rows| ==> |rows[i]| == pixels.Length1
    requires forall i, j :: 0 <= i < pixels.Length0 && 0 <= j < pixels.Length1 ==> pixels[i, j] == rows[i][j]
    ensures Rows(pixels) == rows
  {
    forall i | 0 <= i < |rows|
      ensures Rows(pixels)[i] == rows[i]
    {
    }
  }

  /**
   * One row of the repack loop: rewrites every byte of row `i` from cells
   * `counter .. counter + width - 1`, so that rows `0 .. i` agree with `packed`.
   */
  method RepackRow(pixels: array2<Byte>, inChannels: seq<array<Byte>>, buffer: array<Byte>,
                   width: int, height: int, channels: int, i: int, counter: int,
                   ghost planes: seq<seq<int>>, ghost packed: seq<seq<int>>)
    requires channels == 3 || channels == 4
    requires width >= 1 && 0 <= i < height && counter == i * width
    requires PlanesShaped(inChannels, buffer, width, height, channels)
    requires pixels.Length0 == height && pixels.Length1 == width * channels
    requires |planes| == channels && forall k :: 0 <= k < channels ==> |planes[k]| == width * height
    requires forall k, m :: 0 <= k < channels && 0 <= m < width * height ==> planes[k][m] == inChannels[k][m]
    requires packed == Repacked(planes, width, height, channels)
    requires forall i', j' :: 0 <= i' < i && 0 <= j' < width * channels ==> pixels[i', j'] == packed[i'][j']
    modifies pixels
    ensures forall i', j' :: 0 <= i' <= i && 0 <= j' < width * channels ==> pixels[i', j'] == packed[i'][j']
  {
    var j, c := 0, 0;
    while c < width
      invariant 0 <= c <= width && j == c * channels && j <= width * channels
      invariant forall i', j' :: 0 <= i' < i && 0 <= j' < width * channels ==> pixels[i', j'] == packed[i'][j']
      invariant forall j' :: 0 <= j' < j ==> pixels[i, j'] == packed[i][j']
    {
      RepackCells(inChannels, width, height, channels, i, c, j, counter + c, planes, packed);
      RepackPixel(pixels, inChannels, buffer, width, height, channels, i, j, counter + c, packed);
      j, c := j + channels, c + 1;
    }
  }

  /**
   * The pixel at row `i`, column `c` of the repacked rows: its bytes
   * `j .. j + channels - 1` are cell `n` of the planes.
   */
  lemma RepackCells(inChannels: seq<array<Byte>>, width: int, height: int, channels: int, i: int, c: int, j: int, n: int,
                    planes: seq<seq<int>>, packed: seq<seq<int>>)
    requires channels >= 1 && width >= 1 && 0 <= i < height && 0 <= c < width
    requires j == c * channels && n == i * width + c
    requires |inChannels| >= channels && forall k :: 0 <= k < channels ==> inChannels[k].Length == width * height
    requires |planes| == channels && forall k :: 0 <= k < channels ==> |planes[k]| == width * height
    requires forall k, m :: 0 <= k < channels && 0 <= m < width * height ==> planes[k][m] == inChannels[k][m]
    requires packed == Repacked(planes, width, height, channels)
    ensures j + channels == (c + 1) * channels && j + channels <= width * channels && n < width * height
    ensures forall k :: 0 <= k < channels ==> packed[i][j + k] == inChannels[k][n]
  {
    CellIndex(c, channels - 1, channels, width);
    CellIndex(i, c, width, height);
    forall k | 0 <= k < channels
      ensures packed[i][j + k] == inChannels[k][n]
    {
      RepackedAt(planes, width, height, channels, i, c, k);
    }
  }

  /**
   * One pixel of the repack loop: cell `n` of each plane goes to bytes
   * `j .. j + channels - 1` of row `i`, which `packed` says they should hold.
   */
  method RepackPixel(pixels: array2<Byte>, inChannels: seq<array<Byte>>, buffer: array<Byte>,
                     width: int, height: int, channels: int, i: int, j: int, n: int, ghost packed: seq<seq<int>>)
    requires channels == 3 || channels == 4
    requires PlanesShaped(inChannels, buffer, width, height, channels)
    requires 0 <= i < height && 0 <= j && j + channels <= width * channels && 0 <= n < width * height
    requires pixels.Length0 == height && pixels.Length1 == width * channels
    requires |packed| == height && |packed[i]| == width * channels
    requires forall k :: 0 <= k < channels ==> packed[i][j + k] == inChannels[k][n]
    modifies pixels
    ensures forall j' :: j <= j' < j + channels ==> pixels[i, j'] == packed[i][j']
    ensures forall i', j' :: 0 <= i' < height && 0 <= j' < width * channels && !(i' == i && j <= j' < j + channels) ==>
      pixels[i', j'] == old(pixels[i', j'])
  {
    pixels[i, j] := inChannels[0][n];
    pixels[i, j + 1] := inChannels[1][n];
    pixels[i, j + 2] := inChannels[2][n];
    if channels == 4 {
      pixels[i, j + 3] := inChannels[3][n];
    }
  }

  /**
   * `process(source, target, radius, stronger_blur)` past the libpng
   * decode: `valid` is the outcome of the signature check and `pixels` the
   * decoded rows. Returns 0 (the `NULL` of the source) at once on a bad
   * signature; otherwise unpacks, blurs every channel, repacks into the
   * rows that are then encoded, and returns 1.
   */
  method Process(valid: bool, pixels: array2<Byte>, width: int, height: int, channels: int,
                 radius: int, strongerBlur: int) returns (ret: int)
    requires channels == 3 || channels == 4
    requires width >= 1 && height >= 1 && width * height <= Int32Max
    requires pixels.Length0 == height && pixels.Length1 == width * channels
    requires valid ==> ProcessDefined(Rows(pixels), width, height, channels, radius, strongerBlur != 0)
    modifies pixels
    ensures !valid ==> ret == 0 && Rows(pixels) == old(Rows(pixels))
    ensures valid ==> ret == 1
    ensures valid ==> Rows(pixels) == ProcessResult(old(Rows(pixels)), width, height, channels, radius, strongerBlur != 0)
  {
    if !valid {
      return 0;
    }
    ghost var rows := Rows(pixels);
    var inChannels, buffer := AllocatePlanes(width, height, channels);
    UnpackChannels(pixels, inChannels, buffer, width, height, channels);
    BlurChannels(inChannels, buffer, width, height, channels, radius, strongerBlur);
    assert Contents(inChannels, channels) == BlurredPlanes(rows, width, height, channels, radius, strongerBlur != 0);
    RepackChannels(pixels, inChannels, buffer, width, height, channels);
    ret := 1;
  }
}
