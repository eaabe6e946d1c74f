/**
 * The payload of a `.pos` file: after the header come 32-bit cells, 7 per
 * channel, 16 channels per frame. A cell is kept opaque (type parameter `T`);
 * `cellOf` stands for the decoding of its 4 bytes.
 */
module Frames {
  import opened EmaErrors
  import opened PyText
  import opened HeaderLines

  const ChannelCount: nat := 16
  const ValuesPerChannel: nat := 7
  /** Cells per frame: 16 channels of 7 values. */
  const FrameWidth: nat := 112
  const CellBytes: nat := 4

  /** Division of a signed byte count by a positive size, rounding toward zero
      as the C code beneath np.fromfile does. */
  function DivTowardZero(a: int, b: nat): (q: int)
    requires b > 0
    ensures a >= 0 ==> 0 <= q && q * b <= a < q * b + b
    ensures a < 0 ==> q <= 0 && a <= q * b < a + b
  {
    if a >= 0 then a / b else -((-a) / b)
  }

  /** The 4 bytes of cell `i` of the payload starting at `offset`. */
  function CellBytesAt(file: seq<byte>, offset: nat, i: nat): seq<byte>
    requires offset + 4 * i + 4 <= |file|
  {
    file[offset + 4 * i .. offset + 4 * i + 4]
  }

  /** `np.fromfile(path, np.float32, offset=offset)`: seek `offset` bytes (a seek
      before the start fails), then read as many whole cells as the remaining
      bytes hold, ignoring a trailing partial cell; a header that ends 4 or more
      bytes past the end of the file asks for a negative count. */
  function PayloadCells<T>(file: seq<byte>, offset: int, cellOf: seq<byte> -> T): (r: Result<seq<T>>)
    ensures offset < 0 ==> r == Failure(NegativeOffset(offset))
    ensures offset >= 0 ==> (r.Failure? <==> offset >= |file| + CellBytes)
    ensures offset >= 0 && r.Failure? ==> r.error == NegativeDimensions
    ensures r.Success? && offset <= |file| ==> CellBytes * |r.value| <= |file| - offset < CellBytes * |r.value| + CellBytes
    ensures r.Success? && offset > |file| ==> r.value == []
    ensures r.Success? ==> forall i :: 0 <= i < |r.value| ==>
      offset + 4 * i + 4 <= |file| && r.value[i] == cellOf(CellBytesAt(file, offset, i))
  {
    if offset < 0 then Failure(NegativeOffset(offset))
    else
      var num := DivTowardZero(|file| - offset, CellBytes);
      if num < 0 then Failure(NegativeDimensions)
      else Success(seq(num, i requires 0 <= i < num => cellOf(CellBytesAt(file, offset, i))))
  }

  /** `cells.reshape((-1, 112))`. */
  function Reshape<T>(cells: seq<T>): (r: Result<seq<seq<T>>>)
    ensures r.Success? <==> |cells| % FrameWidth == 0
    ensures r.Failure? ==> r.error == ReshapeMismatch(|cells|)
    ensures r.Success? ==> |r.value| * FrameWidth == |cells|
    ensures r.Success? ==> forall f :: 0 <= f < |r.value| ==> |r.value[f]| == FrameWidth
    ensures r.Success? ==> forall f, k :: 0 <= f < |r.value| && 0 <= k < FrameWidth ==>
      r.value[f][k] == cells[f * FrameWidth + k]
  {
    if |cells| % FrameWidth != 0 then Failure(ReshapeMismatch(|cells|))
    else
      var n := |cells| / FrameWidth;
      Success(seq(n, f requires 0 <= f < n => cells[f * FrameWidth .. f * FrameWidth + FrameWidth]))
  }

  function Flatten<T>(frames: seq<seq<T>>): seq<T>
  {
    if frames == [] then [] else frames[0] + Flatten(frames[1..])
  }

  ghost predicate AllFrames<T>(frames: seq<seq<T>>)
  {
    forall f :: 0 <= f < |frames| ==> |frames[f]| == FrameWidth
  }

  lemma FlattenLength<T>(frames: seq<seq<T>>)
    requires AllFrames(frames)
    ensures |Flatten(frames)| == |frames| * FrameWidth
    ensures forall f, k :: 0 <= f < |frames| && 0 <= k < FrameWidth ==>
      Flatten(frames)[f * FrameWidth + k] == frames[f][k]
  {
    FlattenSize(frames);
    forall f, k | 0 <= f < |frames| && 0 <= k < FrameWidth
      ensures Flatten(frames)[f * FrameWidth + k] == frames[f][k]
    {
      FlattenCell(frames, f, k);
    }
  }

  lemma {:induction false} FlattenSize<T>(frames: seq<seq<T>>)
    requires AllFrames(frames)
    ensures |Flatten(frames)| == |frames| * FrameWidth
  {
    if frames != [] {
      FlattenSize(frames[1..]);
      assert |frames[0]| == FrameWidth;
    }
  }

  /** Cell `k` of frame `f` sits at `f*112 + k` of the flattening. */
  lemma {:induction false} FlattenCell<T>(frames: seq<seq<T>>, f: nat, k: nat)
    requires AllFrames(frames) && f < |frames| && k < FrameWidth
    ensures f * FrameWidth + k < |Flatten(frames)|
    ensures Flatten(frames)[f * FrameWidth + k] == frames[f][k]
    decreases f
  {
    FlattenSize(frames);
    var flat := Flatten(frames);
    assert flat == frames[0] + Flatten(frames[1..]) && |frames[0]| == FrameWidth;
    if f > 0 {
      FlattenCell(frames[1..], f - 1, k);
      var m := (f - 1) * FrameWidth + k;
      assert f * FrameWidth + k == FrameWidth + m;
      assert frames[1..][f - 1] == frames[f];
    }
  }

  /** Reshaping loses nothing: flattening the frames gives back the cells. */
  lemma ReshapeFlatten<T>(cells: seq<T>)
    requires |cells| % FrameWidth == 0
    ensures Flatten(Reshape(cells).value) == cells
  {
    var frames := Reshape(cells).value;
    FlattenSize(frames);
    var flat := Flatten(frames);
    forall j | 0 <= j < |cells| ensures flat[j] == cells[j] {
      var f := j / FrameWidth;
      var k := j % FrameWidth;
      assert j == f * FrameWidth + k;
      FlattenCell(frames, f, k);
    }
  }

  /** And every table of whole frames is the reshape of its flattening. */
  lemma FlattenReshape<T>(frames: seq<seq<T>>)
    requires AllFrames(frames)
    ensures Reshape(Flatten(frames)) == Success(frames)
  {
    FlattenLength(frames);
    assert |Flatten(frames)| % FrameWidth == 0;
    var r := Reshape(Flatten(frames)).value;
    assert |r| == |frames|;
    forall f | 0 <= f < |frames| ensures r[f] == frames[f] {
      forall k | 0 <= k < FrameWidth ensures r[f][k] == frames[f][k] {
        assert r[f][k] == Flatten(frames)[f * FrameWidth + k] == frames[f][k];
      }
    }
    assert r == frames;
  }

  /** Frame `f`, channel `c` (0-based), value `v` is cell `f*112 + c*7 + v`. */
  lemma FrameCell<T>(cells: seq<T>, f: nat, c: nat, v: nat)
    requires Reshape(cells).Success?
    requires f < |Reshape(cells).value| && c < ChannelCount && v < ValuesPerChannel
    ensures c * ValuesPerChannel + v < FrameWidth
    ensures Reshape(cells).value[f][c * ValuesPerChannel + v] == cells[f * FrameWidth + c * ValuesPerChannel + v]
  {
  }

  /** Position that numpy's `frames[:, idx]` selects on the 112-wide axis:
      negative indices count from the end; anything else out of range raises. */
  function ColumnPosition(idx: int): (r: Result<nat>)
    ensures r.Success? <==> -(FrameWidth as int) <= idx < FrameWidth
    ensures r.Failure? ==> r.error == IndexError(idx)
    ensures r.Success? ==> r.value < FrameWidth && r.value % FrameWidth == idx % FrameWidth
  {
    if 0 <= idx < FrameWidth then Success(idx)
    else if -(FrameWidth as int) <= idx < 0 then Success(idx + FrameWidth)
    else Failure(IndexError(idx))
  }

  /** Stacking the selected columns side by side (`np.vstack(...).T`): row `f`
      holds frame `f`'s cell at each selected position, in the order given. */
  function SelectColumns<T>(frames: seq<seq<T>>, cols: seq<nat>): (rows: seq<seq<T>>)
    requires AllFrames(frames)
    requires forall j :: 0 <= j < |cols| ==> cols[j] < FrameWidth
    ensures |rows| == |frames|
    ensures forall f :: 0 <= f < |rows| ==> |rows[f]| == |cols|
  {
    seq(|frames|, f requires 0 <= f < |frames| =>
      seq(|cols|, j requires 0 <= j < |cols| => frames[f][cols[j]]))
  }

  /** `_read_raw_EMA`: header size, cells after it, frames of 112. */
  function ReadRawEma<T>(file: seq<byte>, cellOf: seq<byte> -> T): (r: Result<seq<seq<T>>>)
    ensures r.Success? ==> AllFrames(r.value)
  {
    match HeaderSize(file)
    case Failure(e) => Failure(e)
    case Success(hs) => FramesAfter(file, hs, cellOf)
  }

  /** The second half of `_read_raw_EMA`: the cells from offset `hs` on, cut
      into frames of 112. */
  function FramesAfter<T>(file: seq<byte>, hs: int, cellOf: seq<byte> -> T): (r: Result<seq<seq<T>>>)
    ensures r.Success? ==> AllFrames(r.value)
  {
    match PayloadCells(file, hs, cellOf)
    case Failure(e) => Failure(e)
    case Success(cells) => Reshape(cells)
  }

  /** When the header is well formed, the read succeeds exactly when the whole
      cells after it fill a whole number of frames; the frames then take up the
      payload save for at most 3 trailing bytes, and cell `k` of frame `f` is
      decoded from the 4 bytes at `hs + 4*(f*112 + k)`. */
  lemma ReadRawEmaLayout<T>(file: seq<byte>, cellOf: seq<byte> -> T, hs: nat)
    requires HeaderSize(file) == Success(hs) && hs <= |file|
    ensures ReadRawEma(file, cellOf).Success? <==> ((|file| - hs) / CellBytes) % FrameWidth == 0
    ensures ReadRawEma(file, cellOf).Success? ==>
      var frames := ReadRawEma(file, cellOf).value;
      && |frames| * FrameWidth * CellBytes <= |file| - hs < |frames| * FrameWidth * CellBytes + CellBytes
      && forall f, k :: 0 <= f < |frames| && 0 <= k < FrameWidth ==>
           hs + 4 * (f * FrameWidth + k) + 4 <= |file| &&
           frames[f][k] == cellOf(CellBytesAt(file, hs, f * FrameWidth + k))
  {
    assert ReadRawEma(file, cellOf) == FramesAfter(file, hs, cellOf);
    FramesAfterLayout(file, hs, cellOf);
  }

  /** The frames read from offset `hs` inside the file, as `ReadRawEmaLayout`
      states them. */
  lemma FramesAfterLayout<T>(file: seq<byte>, hs: nat, cellOf: seq<byte> -> T)
    requires hs <= |file|
    ensures FramesAfter(file, hs, cellOf).Success? <==> ((|file| - hs) / CellBytes) % FrameWidth == 0
    ensures FramesAfter(file, hs, cellOf).Success? ==>
      var frames := FramesAfter(file, hs, cellOf).value;
      && |frames| * FrameWidth * CellBytes <= |file| - hs < |frames| * FrameWidth * CellBytes + CellBytes
      && forall f, k :: 0 <= f < |frames| && 0 <= k < FrameWidth ==>
           hs + 4 * (f * FrameWidth + k) + 4 <= |file| &&
           frames[f][k] == cellOf(CellBytesAt(file, hs, f * FrameWidth + k))
  {
    var cells := PayloadCells(file, hs, cellOf).value;
    assert |cells| == (|file| - hs) / CellBytes;
    if Reshape(cells).Success? {
      PayloadFrames(file, cellOf, hs, cells);
    }
  }

  /** The frames the reshape cuts from the cells read at `hs`. */
  lemma PayloadFrames<T>(file: seq<byte>, cellOf: seq<byte> -> T, hs: nat, cells: seq<T>)
    requires hs <= |file| && PayloadCells(file, hs, cellOf) == Success(cells)
    requires Reshape(cells).Success?
    ensures var frames := Reshape(cells).value;
      && |frames| * FrameWidth * CellBytes <= |file| - hs < |frames| * FrameWidth * CellBytes + CellBytes
      && forall f, k :: 0 <= f < |frames| && 0 <= k < FrameWidth ==>
           hs + 4 * (f * FrameWidth + k) + 4 <= |file| &&
           frames[f][k] == cellOf(CellBytesAt(file, hs, f * FrameWidth + k))
  {
    var frames := Reshape(cells).value;
    assert |frames| * FrameWidth * CellBytes == CellBytes * |cells|;
    forall f, k | 0 <= f < |frames| && 0 <= k < FrameWidth
      ensures hs + 4 * (f * FrameWidth + k) + 4 <= |file|
      ensures frames[f][k] == cellOf(CellBytesAt(file, hs, f * FrameWidth + k))
    {
      assert f * FrameWidth + k < |cells|;
      assert frames[f][k] == cells[f * FrameWidth + k];
    }
  }

  /** When the payload is a whole number of cells, its length is exactly
      frames x 112 cells x 4 bytes. */
  lemma ReadRawEmaExactSize<T>(file: seq<byte>, cellOf: seq<byte> -> T, hs: nat)
    requires HeaderSize(file) == Success(hs) && hs <= |file|
    requires (|file| - hs) % CellBytes == 0
    requires ReadRawEma(file, cellOf).Success?
    ensures |ReadRawEma(file, cellOf).value| * FrameWidth * CellBytes == |file| - hs
  {
    assert ReadRawEma(file, cellOf) == FramesAfter(file, hs, cellOf);
    FramesAfterExactSize(file, hs, cellOf);
  }

  /** `ReadRawEmaExactSize` for the frames read from offset `hs`. */
  lemma FramesAfterExactSize<T>(file: seq<byte>, hs: nat, cellOf: seq<byte> -> T)
    requires hs <= |file| && (|file| - hs) % CellBytes == 0
    requires FramesAfter(file, hs, cellOf).Success?
    ensures |FramesAfter(file, hs, cellOf).value| * FrameWidth * CellBytes == |file| - hs
  {
    var cells := PayloadCells(file, hs, cellOf).value;
    PayloadFrames(file, cellOf, hs, cells);
    WholeFrames(|Reshape(cells).value|, |file| - hs);
  }

  /** A whole number of cells that lies less than a cell past `frames` whole
      frames is exactly those frames. */
  lemma WholeFrames(frames: nat, n: nat)
    requires n % CellBytes == 0
    requires frames * FrameWidth * CellBytes <= n < frames * FrameWidth * CellBytes + CellBytes
    ensures frames * FrameWidth * CellBytes == n
  {
    var m := frames * FrameWidth;
    var q := n / CellBytes;
    assert n == CellBytes * q;
    assert m * CellBytes == CellBytes * m;
    assert CellBytes * m <= CellBytes * q < CellBytes * m + CellBytes;
    assert m <= q < m + 1;
  }

  /** A payload one byte short of a frame is rejected by the reshape. */
  lemma ShortPayloadRejected<T>(file: seq<byte>, cellOf: seq<byte> -> T, hs: nat)
    requires HeaderSize(file) == Success(hs)
    requires |file| - hs == FrameWidth * CellBytes - 1
    ensures ReadRawEma(file, cellOf) == Failure(ReshapeMismatch(FrameWidth - 1))
  {
    assert ReadRawEma(file, cellOf) == FramesAfter(file, hs, cellOf);
    var p := PayloadCells(file, hs, cellOf);
    assert DivTowardZero(|file| - hs, CellBytes) == FrameWidth - 1;
    assert p.Success? && |p.value| == FrameWidth - 1;
  }
}
