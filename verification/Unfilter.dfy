/** PNG scanline reconstruction: the filters of section 6 of RFC 2083, and the decoder's loop over two alternating row
    buffers. */
module Unfilter {
  import opened Basics
  import opened Memory

  // ---------------------------------------------------------------- the filters

  /** The Paeth predictor of section 6.6: of left, above and upper left the one nearest to `a + b - c`, in that order of
      preference. */
  function PaethPredictor(a: int, b: int, c: int): int {
    var p := a + b - c;
    var pa, pb, pc := Abs(p - a), Abs(p - b), Abs(p - c);
    if pa <= pb && pa <= pc then a else if pb <= pc then b else c
  }

  /** `stbi__paeth`. */
  function Paeth(a: int, b: int, c: int): int {
    var threshold := c * 3 - (a + b);
    var lo, hi := if a < b then a else b, if a < b then b else a;
    var t0 := if hi <= threshold then lo else c;
    if threshold <= lo then hi else t0
  }

  /** The branch-light form picks the same predictor, ties included. */
  lemma PaethIs(a: int, b: int, c: int)
    ensures Paeth(a, b, c) == PaethPredictor(a, b, c)
  {}

  type Filter = f: int | 0 <= f <= 4

  /** What filter `f` predicts from the bytes to the left, above, and above to the left. */
  function Predict(f: Filter, left: Byte, above: Byte, corner: Byte): (p: Byte) {
    if f == 0 then 0
    else if f == 1 then left
    else if f == 2 then above
    else if f == 3 then (left + above) / 2
    else PaethPredictor(left, above, corner)
  }

  /** The byte one pixel before index `i`, 0 in the first pixel. */
  function Before(s: seq<Byte>, i: nat, bpp: nat): Byte
    requires 0 < bpp && i <= |s| + bpp - 1
  {
    if i < bpp then 0 else s[i - bpp]
  }

  /** The first `k` bytes of a reconstructed row. */
  function Recon(f: Filter, raw: seq<Byte>, prior: seq<Byte>, bpp: nat, k: nat): (r: seq<Byte>)
    requires 0 < bpp && |prior| == |raw| && k <= |raw|
    ensures |r| == k
    decreases k
  {
    if k == 0 then []
    else
      var r := Recon(f, raw, prior, bpp, k - 1);
      r + [(raw[k - 1] + Predict(f, Before(r, k - 1, bpp), prior[k - 1], Before(prior, k - 1, bpp))) % 256]
  }

  function ReconRow(f: Filter, raw: seq<Byte>, prior: seq<Byte>, bpp: nat): seq<Byte>
    requires 0 < bpp && |prior| == |raw|
  {
    Recon(f, raw, prior, bpp, |raw|)
  }

  lemma {:induction false} ReconPrefix(f: Filter, raw: seq<Byte>, prior: seq<Byte>, bpp: nat, i: nat, k: nat)
    requires 0 < bpp && |prior| == |raw| && i <= k <= |raw|
    ensures Recon(f, raw, prior, bpp, k)[..i] == Recon(f, raw, prior, bpp, i)
    decreases k - i
  {
    if i < k {
      ReconPrefix(f, raw, prior, bpp, i, k - 1);
      var r := Recon(f, raw, prior, bpp, k);
      assert r[..i] == r[..k - 1][..i];
    }
  }

  /** Each byte of a reconstructed row. */
  lemma ReconAt(f: Filter, raw: seq<Byte>, prior: seq<Byte>, bpp: nat, i: nat)
    requires 0 < bpp && |prior| == |raw| && i < |raw|
    ensures var r := ReconRow(f, raw, prior, bpp);
      r[i] == (raw[i] + Predict(f, Before(r, i, bpp), prior[i], Before(prior, i, bpp))) % 256
  {
    var r := ReconRow(f, raw, prior, bpp);
    ReconPrefix(f, raw, prior, bpp, i, |raw|);
    ReconPrefix(f, raw, prior, bpp, i + 1, |raw|);
    assert r[i] == r[..i + 1][i];
    if i >= bpp { assert r[..i][i - bpp] == r[i - bpp]; }
  }

  function Plus(x: int, p: int): int { (x + p) % 256 }

  /** `p` is the mean of two bytes, rounded down. */
  predicate IsHalf(p: int, a: int, b: int) { 2 * p <= a + b <= 2 * p + 1 }

  /** Of the three bytes `p` is nearest to `left + above - corner`; among equals the left one comes first. */
  predicate IsNearest(p: int, left: int, above: int, corner: int) {
    var estimate := left + above - corner;
    && p in [left, above, corner]
    && Abs(estimate - p) <= Abs(estimate - left) && Abs(estimate - p) <= Abs(estimate - above)
    && Abs(estimate - p) <= Abs(estimate - corner)
    && (p != left ==> Abs(estimate - p) < Abs(estimate - left))
    && (p != left && p != above ==> Abs(estimate - p) < Abs(estimate - above))
  }

  /** The five filters of section 6 of RFC 2083, byte by byte: what a row holds after reconstruction. */
  lemma RowBytes(f: Filter, raw: seq<Byte>, prior: seq<Byte>, bpp: nat, i: nat) returns (p: Byte)
    requires 0 < bpp && |prior| == |raw| && i < |raw|
    ensures var r := ReconRow(f, raw, prior, bpp);
      var left: int, corner: int := if i < bpp then 0 else r[i - bpp], if i < bpp then 0 else prior[i - bpp];
      && |r| == |raw|
      && (f == 0 ==> r[i] == raw[i])
      && (f == 1 ==> r[i] == Plus(raw[i], left))
      && (f == 2 ==> r[i] == Plus(raw[i], prior[i]))
      && (f == 3 ==> IsHalf(p, left, prior[i]) && r[i] == Plus(raw[i], p))
      && (f == 4 ==> IsNearest(p, left, prior[i], corner) && r[i] == Plus(raw[i], p))
  {
    hide IsNearest;
    var r := ReconRow(f, raw, prior, bpp);
    ReconAt(f, raw, prior, bpp, i);
    hide ReconRow;
    p := Predict(f, Before(r, i, bpp), prior[i], Before(prior, i, bpp));
    if f == 4 { NearestIs(Before(r, i, bpp), prior[i], Before(prior, i, bpp)); }
  }

  lemma NearestIs(left: int, above: int, corner: int)
    ensures IsNearest(PaethPredictor(left, above, corner), left, above, corner)
  {}

  // ---------------------------------------------------------------- filtering forwards

  /** What an encoder sends for a row. */
  function FilterRow(f: Filter, row: seq<Byte>, prior: seq<Byte>, bpp: nat): (r: seq<Byte>)
    requires 0 < bpp && |prior| == |row|
    ensures |r| == |row|
  {
    seq(|row|, i requires 0 <= i < |row| =>
      (row[i] - Predict(f, Before(row, i, bpp), prior[i], Before(prior, i, bpp))) % 256)
  }

  lemma AddBack(x: Byte, p: int)
    ensures ((x - p) % 256 + p) % 256 == x
  {}

  /** Reconstruction undoes filtering, whatever the row, the prior row and the filter. */
  lemma {:induction false} ReconUndoesFilter(f: Filter, row: seq<Byte>, prior: seq<Byte>, bpp: nat, k: nat)
    requires 0 < bpp && |prior| == |row| && k <= |row|
    ensures Recon(f, FilterRow(f, row, prior, bpp), prior, bpp, k) == row[..k]
    decreases k
  {
    if k > 0 {
      ReconUndoesFilter(f, row, prior, bpp, k - 1);
      AddBack(row[k - 1], Predict(f, Before(row, k - 1, bpp), prior[k - 1], Before(prior, k - 1, bpp)));
    }
  }

  // ---------------------------------------------------------------- whole images

  function Zeros(n: nat): (s: seq<Byte>)
    ensures |s| == n && forall i :: 0 <= i < n ==> s[i] == 0
  {
    seq(n, _ => 0)
  }

  /** `height` rows, each a filter byte and `width` filtered bytes. */
  ghost predicate Enough(raw: seq<Byte>, width: nat, height: nat) {
    |raw| >= Area(width + 1, height)
  }

  function Area(width: nat, height: nat): nat { width * height }

  lemma TooShort(raw: seq<Byte>, width: nat, height: nat)
    ensures Enough(raw, width, height) <==> |raw| >= Area(width + 1, height)
  {}

  lemma EnoughForRow(raw: seq<Byte>, width: nat, height: nat)
    requires Enough(raw, width, height) && height > 0
    ensures |raw| >= width + 1 && Enough(raw[width + 1..], width, height - 1)
  {
    RowsLeft(width + 1, height);
  }

  ghost predicate FiltersOk(raw: seq<Byte>, width: nat, height: nat)
    requires Enough(raw, width, height)
    decreases height
  {
    if height == 0 then true
    else
      EnoughForRow(raw, width, height);
      raw[0] <= 4 && FiltersOk(raw[width + 1..], width, height - 1)
  }

  /** The rows of the image, one after the other; `prior` is the row above the first. */
  ghost function Image(raw: seq<Byte>, width: nat, height: nat, bpp: nat, prior: seq<Byte>): seq<Byte>
    requires 0 < bpp && |prior| == width && Enough(raw, width, height) && FiltersOk(raw, width, height)
    decreases height
  {
    if height == 0 then []
    else
      EnoughForRow(raw, width, height);
      var row := ReconRow(raw[0], raw[1..width + 1], prior, bpp);
      row + Image(raw[width + 1..], width, height - 1, bpp, row)
  }

  /** What an encoder sends for an image, with one filter for each row. */
  ghost function Encode(fs: seq<Filter>, rows: seq<seq<Byte>>, width: nat, bpp: nat, prior: seq<Byte>): seq<Byte>
    requires 0 < bpp && |prior| == width && |fs| == |rows| && forall r <- rows :: |r| == width
    decreases |rows|
  {
    if rows == [] then []
    else [fs[0]] + FilterRow(fs[0], rows[0], prior, bpp) + Encode(fs[1..], rows[1..], width, bpp, rows[0])
  }

  function Flatten(rows: seq<seq<Byte>>): seq<Byte> {
    if rows == [] then [] else rows[0] + Flatten(rows[1..])
  }

  /** Decoding an encoded image gives its rows, for every size, pixel size and choice of filters. */
  lemma {:induction false} ImageUndoesEncode(fs: seq<Filter>, rows: seq<seq<Byte>>, width: nat, bpp: nat,
                                             prior: seq<Byte>)
    requires 0 < bpp && |prior| == width && |fs| == |rows| && forall r <- rows :: |r| == width
    ensures var raw := Encode(fs, rows, width, bpp, prior);
      && Enough(raw, width, |rows|) && FiltersOk(raw, width, |rows|)
      && Image(raw, width, |rows|, bpp, prior) == Flatten(rows)
    decreases |rows|
  {
    if rows != [] {
      var rest := Encode(fs[1..], rows[1..], width, bpp, rows[0]);
      var row := FilterRow(fs[0], rows[0], prior, bpp);
      ImageUndoesEncode(fs[1..], rows[1..], width, bpp, rows[0]);
      ReconUndoesFilter(fs[0], rows[0], prior, bpp, width);
      assert rows[0][..width] == rows[0];
      RowFirst(fs[0], row, rest, width, |rows|, bpp, prior);
    }
  }

  /** Taking the first row off the data. */
  lemma RowFirst(f: Filter, row: seq<Byte>, rest: seq<Byte>, width: nat, height: nat, bpp: nat, prior: seq<Byte>)
    requires 0 < bpp && |prior| == |row| == width && height > 0
    requires Enough(rest, width, height - 1) && FiltersOk(rest, width, height - 1)
    ensures var raw := [f] + row + rest;
      && Enough(raw, width, height) && FiltersOk(raw, width, height)
      && Image(raw, width, height, bpp, prior)
         == ReconRow(f, row, prior, bpp) + Image(rest, width, height - 1, bpp, ReconRow(f, row, prior, bpp))
  {
    hide ReconRow;
    var raw := [f] + row + rest;
    RowsLeft(width + 1, height);
    assert raw[width + 1..] == rest && raw[1..width + 1] == row;
  }

  lemma RowsLeft(n: nat, height: nat)
    requires height > 0
    ensures Area(n, height) == Area(n, height - 1) + n
  {}

  /** A row or an image as it is left in memory: samples of 16 bits come with the high byte first and are stored as
      words of a little-endian machine. */
  function Native(s: seq<Byte>, wide: bool): (r: seq<Byte>)
    ensures |r| == |s|
  {
    if wide then seq(|s|, i requires 0 <= i < |s| => s[Partner(i, |s|)]) else s
  }

  /** The other byte of a pair. */
  function Partner(i: nat, n: nat): (j: nat)
    requires i < n
    ensures j < n
  {
    if i % 2 == 1 then i - 1 else if i + 1 < n then i + 1 else i
  }

  lemma PartnerBehind(i: nat, h: nat, n: nat)
    requires 2 * h <= i < 2 * h + n
    ensures Partner(i, 2 * h + n) == 2 * h + Partner(i - 2 * h, n)
  {
    var q, r := i / 2, i % 2;
    Parity(q, r);
    Parity(q - h, r);
    assert i - 2 * h == 2 * (q - h) + r;
  }

  lemma Parity(q: int, r: int)
    requires 0 <= r < 2
    ensures (2 * q + r) % 2 == r
  {}

  lemma PartnerBefore(i: nat, h: nat, n: nat)
    requires i < 2 * h
    ensures Partner(i, 2 * h + n) == Partner(i, 2 * h)
  {}

  lemma NativeJoin(a: seq<Byte>, b: seq<Byte>, wide: bool)
    requires wide ==> |a| % 2 == 0
    ensures Native(a + b, wide) == Native(a, wide) + Native(b, wide)
  {
    hide Partner;
    if wide {
      var h := |a| / 2;
      forall i | 0 <= i < |a| + |b| ensures Native(a + b, wide)[i] == (Native(a, wide) + Native(b, wide))[i] {
        if i < |a| { PartnerBefore(i, h, |b|); } else { PartnerBehind(i, h, |b|); }
      }
    }
  }

  /** Storing twice exchanges the bytes back. */
  lemma NativeTwice(s: seq<Byte>, wide: bool)
    requires wide ==> |s| % 2 == 0
    ensures Native(Native(s, wide), wide) == s
  {
    hide Partner;
    if wide {
      forall i | 0 <= i < |s| ensures Partner(Partner(i, |s|), |s|) == i { PartnerTwice(i, |s| / 2); }
    }
  }

  lemma PartnerTwice(i: nat, h: nat)
    requires i < 2 * h
    ensures Partner(Partner(i, 2 * h), 2 * h) == i
  {}

  // ---------------------------------------------------------------- the decoder

  const AVG_FIRST: int := 5

  /** `first_row_filter`. */
  const FIRST_ROW: seq<int> := [0, 1, 0, AVG_FIRST, 1]

  /** The arms of the filter switch in the first pixel of a row, and after it: `x` is the filtered byte. */
  function FirstByte(filter: int, x: Byte, b: Byte): Byte {
    if filter == 2 || filter == 4 then (x + b) % 256 else if filter == 3 then (x + b / 2) % 256 else x
  }

  function LaterByte(filter: int, x: Byte, a: Byte, b: Byte, c: Byte): Byte {
    if filter == 1 then (x + a) % 256
    else if filter == 2 then (x + b) % 256
    else if filter == 3 then (x + (b + a) / 2) % 256
    else if filter == 4 then (x + Paeth(a, b, c)) % 256
    else if filter == AVG_FIRST then (x + a / 2) % 256
    else x
  }

  /** `filter` with the row `above` stands for filter `f` with the prior row `prior`: itself, or on the first row the
      filter that needs no row of zeros. */
  ghost predicate StandsFor(filter: int, f: Filter, above: seq<Byte>, prior: seq<Byte>) {
    || (filter == f && above == prior)
    || (filter == FIRST_ROW[f] && prior == Zeros(|above|))
  }

  /** What the arms compute is the reconstructed row. */
  lemma ArmIs(filter: int, f: Filter, row: seq<Byte>, above: seq<Byte>, prior: seq<Byte>, bpp: nat, i: nat)
    requires 0 < bpp && |prior| == |above| == |row| && i < |row| && StandsFor(filter, f, above, prior)
    ensures var r := ReconRow(f, row, prior, bpp);
      r[i] == if i < bpp then FirstByte(filter, row[i], above[i])
              else LaterByte(filter, row[i], r[i - bpp], above[i], above[i - bpp])
  {
    ReconAt(f, row, prior, bpp, i);
    var r := ReconRow(f, row, prior, bpp);
    PaethIs(Before(r, i, bpp), above[i], if i < bpp then 0 else above[i - bpp]);
  }

  /** The filter loops of `stbi__create_png_image_raw` for the row at `at` in `raw`; the current and the prior row are
      parts of `buffer`. */
  method UnfilterRow(filter: int, raw: seq<Byte>, at: nat, buffer: array<Byte>, cur: nat, above: nat, width: nat,
                     bpp: nat, ghost f: Filter, ghost prior: seq<Byte>)
    requires 0 < bpp <= width && at + width <= |raw| && |prior| == width
    requires cur + width <= buffer.Length && above + width <= buffer.Length
    requires cur + width <= above || above + width <= cur
    requires StandsFor(filter, f, buffer[above..above + width], prior)
    modifies buffer
    ensures buffer[cur..cur + width] == ReconRow(f, raw[at..at + width], prior, bpp)
  {
    ghost var row, up := raw[at..at + width], buffer[above..above + width];
    ghost var r := ReconRow(f, row, prior, bpp);
    for k := 0 to bpp
      invariant forall i :: 0 <= i < k ==> buffer[cur + i] == r[i]
      invariant buffer[above..above + width] == up
    {
      ArmIs(filter, f, row, up, prior, bpp, k);
      assert buffer[above + k] == up[k];
      buffer[cur + k] := FirstByte(filter, raw[at + k], buffer[above + k]);
    }
    for k := bpp to width
      invariant forall i :: 0 <= i < k ==> buffer[cur + i] == r[i]
      invariant buffer[above..above + width] == up
    {
      ArmIs(filter, f, row, up, prior, bpp, k);
      assert buffer[above + k] == up[k] && buffer[above + k - bpp] == up[k - bpp];
      var left, upperLeft := buffer[cur + k - bpp], buffer[above + k - bpp];
      buffer[cur + k] := LaterByte(filter, raw[at + k], left, buffer[above + k], upperLeft);
    }
  }

  /** `done` and the rows that `raw` still holds make up the image. */
  ghost predicate Remaining(raw: seq<Byte>, width: nat, height: nat, bpp: nat, prior: seq<Byte>, wide: bool,
                            done: seq<Byte>, image: seq<Byte>)
    requires 0 < bpp && |prior| == width && Enough(raw, width, height)
  {
    FiltersOk(raw, width, height) ==> image == done + Native(Image(raw, width, height, bpp, prior), wide)
  }

  lemma RemainingNext(raw: seq<Byte>, width: nat, height: nat, bpp: nat, prior: seq<Byte>, wide: bool, done: seq<Byte>,
                      image: seq<Byte>, row: seq<Byte>)
    requires 0 < bpp && |prior| == |row| == width && Enough(raw, width, height) && height > 0
    requires wide ==> width % 2 == 0
    requires |raw| >= width + 1 && Enough(raw[width + 1..], width, height - 1) && raw[0] <= 4
    requires row == ReconRow(raw[0], raw[1..width + 1], prior, bpp)
    requires Remaining(raw, width, height, bpp, prior, wide, done, image)
    ensures Remaining(raw[width + 1..], width, height - 1, bpp, row, wide, done + Native(row, wide), image)
  {
    hide ReconRow;
    hide Native;
    if FiltersOk(raw[width + 1..], width, height - 1) {
      var rest := Image(raw[width + 1..], width, height - 1, bpp, row);
      NativeJoin(row, rest, wide);
      Regroup(done, Native(row, wide), Native(rest, wide));
    }
  }

  /** The loop over the rows, for images of 8 bits per sample, or 16 if they are `wide`, with as many channels in as
      out. `ok` is false for too little data and for an invalid filter byte. */
  method UnfilterImage(raw: seq<Byte>, width: nat, height: nat, bpp: nat, wide: bool)
    returns (ok: bool, out: array<Byte>)
    requires 0 < bpp <= width && (wide ==> width % 2 == 0)
    ensures ok <==> Enough(raw, width, height) && FiltersOk(raw, width, height)
    ensures ok ==> out[..] == Native(Image(raw, width, height, bpp, Zeros(width)), wide)
  {
    hide FiltersOk;
    hide Image;
    hide ReconRow;
    hide Enough;
    hide Area;
    hide Native;
    hide Remaining;
    out := new Byte[Area(width, height)](_ => 0);
    TooShort(raw, width, height);
    if |raw| < Area(width + 1, height) { return false, out; }
    var buffer := new Byte[2 * width](_ => 0);
    var at, dest := 0, 0;
    ghost var prior, image := Zeros(width), AllRows(raw, width, height, bpp, wide);
    assert raw[0..] == raw && out[..0] == [];
    for j := 0 to height
      invariant at <= |raw| && Enough(raw[at..], width, height - j) && dest + Area(width, height - j) == out.Length
      invariant |prior| == width
      invariant if j == 0 then prior == Zeros(width)
        else buffer[Half(j + 1, width)..Half(j + 1, width) + width] == prior
      invariant FiltersOk(raw, width, height) <==> FiltersOk(raw[at..], width, height - j)
      invariant Remaining(raw[at..], width, height - j, bpp, prior, wide, out[..dest], image)
    {
      ghost var row := RowNext(raw[at..], width, height - j, bpp, prior);
      ghost var done := out[..dest];
      assert raw[at..][0] == raw[at] && raw[at..][1..width + 1] == raw[at + 1..at + 1 + width];
      ok := DecodeRow(raw, at, j, buffer, out, dest, width, bpp, wide, prior, row);
      if !ok { return false, out; }
      assert raw[at..][width + 1..] == raw[at + 1 + width..];
      RemainingNext(raw[at..], width, height - j, bpp, prior, wide, done, image, row);
      prior := row;
      at, dest := at + 1 + width, dest + width;
    }
    NoRows(raw[at..], width, bpp, prior);
    AllDone(raw[at..], width, bpp, prior, wide, out[..dest], image);
    assert out[..dest] == out[..];
    ok := true;
  }

  /** The image, if there is one. */
  ghost function AllRows(raw: seq<Byte>, width: nat, height: nat, bpp: nat, wide: bool): (image: seq<Byte>)
    requires 0 < bpp && Enough(raw, width, height)
    ensures FiltersOk(raw, width, height) ==> image == Native(Image(raw, width, height, bpp, Zeros(width)), wide)
    ensures Remaining(raw, width, height, bpp, Zeros(width), wide, [], image)
  {
    if FiltersOk(raw, width, height) then Native(Image(raw, width, height, bpp, Zeros(width)), wide) else []
  }

  lemma AllDone(raw: seq<Byte>, width: nat, bpp: nat, prior: seq<Byte>, wide: bool, done: seq<Byte>, image: seq<Byte>)
    requires 0 < bpp && |prior| == width && Enough(raw, width, 0) && FiltersOk(raw, width, 0)
    requires Remaining(raw, width, 0, bpp, prior, wide, done, image)
    ensures image == done
  {
    NoRows(raw, width, bpp, prior);
  }

  lemma Regroup(a: seq<Byte>, b: seq<Byte>, c: seq<Byte>)
    ensures a + (b + c) == (a + b) + c
  {}

  /** One turn of the loop over the rows. */
  method DecodeRow(raw: seq<Byte>, at: nat, j: nat, buffer: array<Byte>, out: array<Byte>, dest: nat, width: nat,
                   bpp: nat, wide: bool, ghost prior: seq<Byte>, ghost row: seq<Byte>)
    returns (ok: bool)
    requires 0 < bpp <= width && (wide ==> width % 2 == 0) && at + 1 + width <= |raw| && |prior| == |row| == width
    requires buffer.Length == 2 * width && buffer != out && dest + width <= out.Length
    requires if j == 0 then prior == Zeros(width) else buffer[Half(j + 1, width)..Half(j + 1, width) + width] == prior
    requires raw[at] <= 4 ==> row == ReconRow(raw[at], raw[at + 1..at + 1 + width], prior, bpp)
    modifies buffer, out
    ensures ok <==> raw[at] <= 4
    ensures ok ==> out[..dest + width] == old(out[..dest]) + Native(row, wide)
    ensures ok ==> buffer[Half(j, width)..Half(j, width) + width] == row
  {
    hide ReconRow;
    var cur, above := Half(j, width), Half(j + 1, width);
    var filter := raw[at];
    if filter > 4 { return false; }
    var arm := if j == 0 then FIRST_ROW[filter] else filter;
    UnfilterRow(arm, raw, at + 1, buffer, cur, above, width, bpp, filter, prior);
    if wide { CopyWords(buffer, cur, out, dest, width); } else { CopyRow(buffer, cur, out, dest, width); }
    ok := true;
  }

  lemma NoRows(raw: seq<Byte>, width: nat, bpp: nat, prior: seq<Byte>)
    requires 0 < bpp && |prior| == width
    ensures Enough(raw, width, 0) && FiltersOk(raw, width, 0) && Area(width, 0) == 0
    ensures Image(raw, width, 0, bpp, prior) == []
  {}

  /** The first row of what is left of the data. */
  lemma RowNext(raw: seq<Byte>, width: nat, height: nat, bpp: nat, prior: seq<Byte>) returns (row: seq<Byte>)
    requires 0 < bpp && |prior| == width && Enough(raw, width, height) && height > 0
    ensures |raw| >= width + 1 && Enough(raw[width + 1..], width, height - 1) && |row| == width
    ensures Area(width, height) == width + Area(width, height - 1)
    ensures FiltersOk(raw, width, height) <==> raw[0] <= 4 && FiltersOk(raw[width + 1..], width, height - 1)
    ensures raw[0] <= 4 ==> row == ReconRow(raw[0], raw[1..width + 1], prior, bpp)
    ensures FiltersOk(raw, width, height) ==>
      Image(raw, width, height, bpp, prior) == row + Image(raw[width + 1..], width, height - 1, bpp, row)
  {
    EnoughForRow(raw, width, height);
    row := if raw[0] <= 4 then ReconRow(raw[0], raw[1..width + 1], prior, bpp) else prior;
  }

  /** The half of the buffer that holds row `j`. */
  function Half(j: nat, width: nat): nat { if j % 2 == 0 then 0 else width }

  /** `memcpy(dest, cur, x * img_n)`. */
  method CopyRow(from: array<Byte>, cur: nat, to: array<Byte>, dest: nat, width: nat)
    requires from != to && cur + width <= from.Length && dest + width <= to.Length
    modifies to
    ensures to[..dest + width] == old(to[..dest]) + from[cur..cur + width]
  {
    for i := 0 to width
      invariant to[..dest + i] == old(to[..dest]) + from[cur..cur + i]
    {
      to[dest + i] := from[cur + i];
    }
  }

  /** The same for samples of 16 bits, each stored as a word. */
  method CopyWords(from: array<Byte>, cur: nat, to: array<Byte>, dest: nat, width: nat)
    requires from != to && cur + width <= from.Length && dest + width <= to.Length && width % 2 == 0
    modifies to
    ensures to[..dest + width] == old(to[..dest]) + Native(from[cur..cur + width], true)
    ensures to[..dest] == old(to[..dest]) && forall k :: 0 <= k < width / 2 ==>
      to[dest + 2 * k] == from[cur + 2 * k + 1] && to[dest + 2 * k + 1] == from[cur + 2 * k]
  {
    ghost var row := from[cur..cur + width];
    for i := 0 to width / 2
      invariant to[..dest] == old(to[..dest])
      invariant forall k :: 0 <= k < 2 * i ==> to[dest + k] == Native(row, true)[k]
      invariant forall k :: 0 <= k < i ==>
        to[dest + 2 * k] == from[cur + 2 * k + 1] && to[dest + 2 * k + 1] == from[cur + 2 * k]
    {
      var high: int, low: int := from[cur + 2 * i], from[cur + 2 * i + 1];
      var word := 256 * high + low;
      to[dest + 2 * i], to[dest + 2 * i + 1] := word % 256, word / 256;
      assert row[2 * i] == from[cur + 2 * i] && row[2 * i + 1] == from[cur + 2 * i + 1];
    }
  }
}
