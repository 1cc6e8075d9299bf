/** The graphical view of an allocation: every byte of the mapped file is
    drawn as 8 pixels, most significant bit first, white for a set bit and
    black for a clear one, `columns` bytes to a row. A left click on a pixel
    sets the bit it shows, a right click clears it. The view runs a loop that
    reacts to messages from the allocator. */
module Graphics {
  import opened Backing

  /** A pixel in `0x00RRGGBB` form. */
  type Pixel = bv32

  const White: Pixel := 0x00FF_FFFF
  const Black: Pixel := 0x0000_0000

  /** The byte with only bit `k` set, bit 0 being the least significant. */
  function BitMask(k: nat): Byte
    requires k < 8
  {
    if k == 0 then 0x01 else if k == 1 then 0x02 else if k == 2 then 0x04 else if k == 3 then 0x08
    else if k == 4 then 0x10 else if k == 5 then 0x20 else if k == 6 then 0x40 else 0x80
  }

  /** Bit `k` of `b` is set. */
  predicate Bit(b: Byte, k: nat)
    requires k < 8
  {
    b & BitMask(k) != 0
  }

  /** Shifting bit `k` down to the lowest place reads that bit. */
  lemma ShiftReadsBit(b: Byte, k: nat)
    requires k < 8
    ensures ((b >> k) & 1 == 1) == Bit(b, k)
  {
    if k == 0 {
    } else if k == 1 {
    } else if k == 2 {
    } else if k == 3 {
    } else if k == 4 {
    } else if k == 5 {
    } else if k == 6 {
    } else {
    }
  }

  /** Shifting 1 up by `k` places sets bit `k` only. */
  lemma ShiftMakesMask(k: nat)
    requires k < 8
    ensures (1 as Byte) << k == BitMask(k)
  {
    if k == 0 {
    } else if k == 1 {
    } else if k == 2 {
    } else if k == 3 {
    } else if k == 4 {
    } else if k == 5 {
    } else if k == 6 {
    } else {
    }
  }

  /** `b` with its bits in reverse order. */
  function ReverseBits(b: Byte): (r: Byte)
    ensures forall k :: 0 <= k < 8 ==> Bit(r, k) == Bit(b, 7 - k)
  {
    ((b & 0x01) << 7) | ((b & 0x02) << 5) | ((b & 0x04) << 3) | ((b & 0x08) << 1)
    | ((b & 0x10) >> 1) | ((b & 0x20) >> 3) | ((b & 0x40) >> 5) | ((b & 0x80) >> 7)
  }

  /** The 8 pixels that show byte `b`: the bits of the reversed byte from
      the least significant up, so pixel `i` shows bit `7 - i` of `b`. */
  function BitsAsPixels(b: Byte): (pixels: seq<Pixel>)
    ensures |pixels| == 8
    ensures forall i :: 0 <= i < 8 ==> pixels[i] == if Bit(b, 7 - i) then White else Black
  {
    var r := ReverseBits(b);
    seq(8, i requires 0 <= i < 8 => Shade(r, i))
  }

  /** The pixel for bit `i` of `r`: black when it is clear, white when set. */
  function Shade(r: Byte, i: nat): (p: Pixel)
    requires i < 8
    ensures p == White <==> Bit(r, i)
    ensures p == White || p == Black
  {
    ShiftReadsBit(r, i);
    if (r >> i) & 1 == 0 then Black else White
  }

  /** The frame buffer contents for the bytes `m`: their pixels one byte
      after the other. */
  function Pixels(m: seq<Byte>): (pixels: seq<Pixel>)
    ensures |pixels| == 8 * |m|
  {
    if m == [] then [] else BitsAsPixels(m[0]) + Pixels(m[1..])
  }

  lemma {:induction false} PixelsAppend(m: seq<Byte>, b: Byte)
    ensures Pixels(m + [b]) == Pixels(m) + BitsAsPixels(b)
  {
    if m != [] {
      assert (m + [b])[1..] == m[1..] + [b];
      PixelsAppend(m[1..], b);
    } else {
      assert m + [b] == [b];
    }
  }

  /** Pixel `8 * i + j` of the frame buffer shows bit `7 - j` of byte
      `i`. */
  lemma {:induction false} PixelsAt(m: seq<Byte>)
    ensures forall i, j :: 0 <= i < |m| && 0 <= j < 8 ==> Pixels(m)[8 * i + j] == BitsAsPixels(m[i])[j]
  {
    if m != [] {
      var rest := m[1..];
      PixelsAt(rest);
      assert Pixels(m) == BitsAsPixels(m[0]) + Pixels(rest);
      forall i, j | 0 <= i < |m| && 0 <= j < 8
        ensures Pixels(m)[8 * i + j] == BitsAsPixels(m[i])[j]
      {
        if i > 0 {
          var p := 8 * (i - 1) + j;
          assert 8 * i + j == 8 + p;
          assert Pixels(m)[8 + p] == Pixels(rest)[p];
          assert rest[i - 1] == m[i];
        }
      }
    }
  }

  /** The width of the frame in pixels. */
  function FrameWidth(columns: nat): (width: nat)
    ensures width % 8 == 0 && width / 8 == columns
  {
    8 * columns
  }

  /** The height of the frame in pixels: whole rows only. */
  function FrameHeight(len: nat, columns: nat): (height: nat)
    requires columns > 0
    ensures height * columns <= len < height * columns + columns
  {
    len / columns
  }

  /** The frame buffer covers the whole frame: `width * height` pixels are
      at most the `8 * len` the buffer holds, the shortfall being the bytes
      of a last, incomplete row, which are not shown. */
  lemma BufferCoversFrame(m: seq<Byte>, columns: nat)
    requires columns > 0
    ensures FrameWidth(columns) * FrameHeight(|m|, columns) <= |Pixels(m)|
    ensures |Pixels(m)| - FrameWidth(columns) * FrameHeight(|m|, columns) == 8 * (|m| % columns)
  {
    RowsAndRest(|m|, columns);
  }

  lemma RowsAndRest(len: nat, columns: nat)
    requires columns > 0
    ensures FrameWidth(columns) * FrameHeight(len, columns) + 8 * (len % columns) == 8 * len
  {
    var q := len / columns;
    assert len == q * columns + len % columns;
    assert FrameWidth(columns) * q == 8 * (q * columns);
  }

  /** The byte that pixel `(x, y)` shows. */
  function ByteIndex(x: nat, y: nat, columns: nat): (i: nat)
    ensures x < FrameWidth(columns) ==> y * columns <= i < y * columns + columns
  {
    x / 8 + y * columns
  }

  /** The mask of the bit that pixel column `x` shows. */
  function Mask(x: nat): (mask: Byte)
    ensures Bit(mask, 7 - x % 8)
    ensures mask & (mask - 1) == 0 // a single bit is set
  {
    BitMask(7 - x % 8)
  }

  /** The mask is the shift of 1 by `7 - x % 8` places that a click
      computes. */
  lemma MaskIsShift(x: nat)
    ensures Mask(x) == (1 as Byte) << (7 - x % 8)
  {
    ShiftMakesMask(7 - x % 8);
  }

  /** A pixel inside the frame shows a byte of the mapping, so a click
      inside the window never indexes past the end. */
  lemma ClickInBounds(x: nat, y: nat, columns: nat, len: nat)
    requires columns > 0
    requires x < FrameWidth(columns) && y < FrameHeight(len, columns)
    ensures ByteIndex(x, y, columns) < len
  {
    var q := len / columns;
    assert x / 8 < columns;
    assert y + 1 <= q;
    assert y * columns + columns == (y + 1) * columns <= q * columns;
    assert q * columns <= len;
  }

  /** The byte and bit a click at `(x, y)` edits are the ones drawn at
      pixel `(x, y)` of a frame `FrameWidth(columns)` pixels wide. */
  lemma ClickHitsPixel(m: seq<Byte>, x: nat, y: nat, columns: nat)
    requires ByteIndex(x, y, columns) < |m|
    ensures y * FrameWidth(columns) + x < |Pixels(m)|
    ensures Pixels(m)[y * FrameWidth(columns) + x] == BitsAsPixels(m[ByteIndex(x, y, columns)])[x % 8]
  {
    var k := ByteIndex(x, y, columns);
    PixelsAt(m);
    RowMajor(x, y, columns);
    assert Pixels(m)[8 * k + x % 8] == BitsAsPixels(m[k])[x % 8];
  }

  lemma RowMajor(x: nat, y: nat, columns: nat)
    ensures 8 * ByteIndex(x, y, columns) + x % 8 == y * FrameWidth(columns) + x
  {
    assert x == 8 * (x / 8) + x % 8;
    assert y * FrameWidth(columns) == 8 * (y * columns);
  }

  /** Setting the mask of column `x` lights pixel `x % 8` of the byte and
      leaves its other pixels as they were. */
  lemma SetMaskLights(b: Byte, x: nat)
    ensures BitsAsPixels(b | Mask(x))[x % 8] == White
    ensures forall j :: 0 <= j < 8 && j != x % 8 ==> BitsAsPixels(b | Mask(x))[j] == BitsAsPixels(b)[j]
  {
    var k := 7 - x % 8;
    assert Mask(x) == BitMask(k);
    SetBitLights(b, k);
  }

  /** Setting bit `k` lights pixel `7 - k` and no other. */
  lemma SetBitLights(b: Byte, k: nat)
    requires k < 8
    ensures BitsAsPixels(b | BitMask(k))[7 - k] == White
    ensures forall j :: 0 <= j < 8 && j != 7 - k ==> BitsAsPixels(b | BitMask(k))[j] == BitsAsPixels(b)[j]
  {
    forall j | 0 <= j < 8
      ensures BitsAsPixels(b | BitMask(k))[j] == if j == 7 - k then White else BitsAsPixels(b)[j]
    {
      SetBitPixel(b, k, j);
    }
  }

  /** Pixel `j` of a byte after setting bit `k`. */
  lemma SetBitPixel(b: Byte, k: nat, j: nat)
    requires k < 8 && j < 8
    ensures BitsAsPixels(b | BitMask(k))[j] == if j == 7 - k then White else BitsAsPixels(b)[j]
  {
    MaskBits(b, k, 7 - j);
  }

  /** Clearing the mask of column `x` darkens pixel `x % 8` of the byte and
      leaves its other pixels as they were. */
  lemma ClearMaskDarkens(b: Byte, x: nat)
    ensures BitsAsPixels(b & !Mask(x))[x % 8] == Black
    ensures forall j :: 0 <= j < 8 && j != x % 8 ==> BitsAsPixels(b & !Mask(x))[j] == BitsAsPixels(b)[j]
  {
    var k := 7 - x % 8;
    assert Mask(x) == BitMask(k);
    ClearBitDarkens(b, k);
  }

  /** Clearing bit `k` darkens pixel `7 - k` and no other. */
  lemma ClearBitDarkens(b: Byte, k: nat)
    requires k < 8
    ensures BitsAsPixels(b & !BitMask(k))[7 - k] == Black
    ensures forall j :: 0 <= j < 8 && j != 7 - k ==> BitsAsPixels(b & !BitMask(k))[j] == BitsAsPixels(b)[j]
  {
    forall j | 0 <= j < 8
      ensures BitsAsPixels(b & !BitMask(k))[j] == if j == 7 - k then Black else BitsAsPixels(b)[j]
    {
      ClearBitPixel(b, k, j);
    }
  }

  /** Pixel `j` of a byte after clearing bit `k`. */
  lemma ClearBitPixel(b: Byte, k: nat, j: nat)
    requires k < 8 && j < 8
    ensures BitsAsPixels(b & !BitMask(k))[j] == if j == 7 - k then Black else BitsAsPixels(b)[j]
  {
    MaskBits(b, k, 7 - j);
  }

  /** Bit `j` of a byte after setting or clearing bit `k`: no other bit
      is affected. */
  lemma MaskBits(b: Byte, k: nat, j: nat)
    requires k < 8 && j < 8
    ensures Bit(b | BitMask(k), j) == (j == k || Bit(b, j))
    ensures Bit(b & !BitMask(k), j) == (j != k && Bit(b, j))
  {
  }

  /** The mapping after a left click at pixel `(x, y)`: the byte shown
      there has the bit shown there set; no other byte changes. */
  function LeftClick(m: seq<Byte>, x: nat, y: nat, columns: nat): (r: seq<Byte>)
    requires ByteIndex(x, y, columns) < |m|
    ensures |r| == |m|
    ensures forall i :: 0 <= i < |m| && i != ByteIndex(x, y, columns) ==> r[i] == m[i]
  {
    var k := ByteIndex(x, y, columns);
    m[k := m[k] | Mask(x)]
  }

  /** After a left click the frame drawn from the mapping is white at
      `(x, y)`. */
  lemma LeftClickLights(m: seq<Byte>, x: nat, y: nat, columns: nat)
    requires ByteIndex(x, y, columns) < |m|
    ensures y * FrameWidth(columns) + x < |Pixels(LeftClick(m, x, y, columns))|
    ensures Pixels(LeftClick(m, x, y, columns))[y * FrameWidth(columns) + x] == White
  {
    var k := ByteIndex(x, y, columns);
    SetMaskLights(m[k], x);
    ClickHitsPixel(LeftClick(m, x, y, columns), x, y, columns);
  }

  /** A left click changes no other pixel of the byte it edits. */
  lemma LeftClickKeepsNeighbours(m: seq<Byte>, x: nat, y: nat, columns: nat)
    requires ByteIndex(x, y, columns) < |m|
    ensures var k := ByteIndex(x, y, columns);
            forall j :: 0 <= j < 8 && j != x % 8 ==> BitsAsPixels(LeftClick(m, x, y, columns)[k])[j] == BitsAsPixels(m[k])[j]
  {
    SetMaskLights(m[ByteIndex(x, y, columns)], x);
  }

  /** The mapping after a right click at pixel `(x, y)`: the byte shown
      there has the bit shown there cleared; no other byte changes. */
  function RightClick(m: seq<Byte>, x: nat, y: nat, columns: nat): (r: seq<Byte>)
    requires ByteIndex(x, y, columns) < |m|
    ensures |r| == |m|
    ensures forall i :: 0 <= i < |m| && i != ByteIndex(x, y, columns) ==> r[i] == m[i]
  {
    var k := ByteIndex(x, y, columns);
    m[k := m[k] & !Mask(x)]
  }

  /** After a right click the frame drawn from the mapping is black at
      `(x, y)`. */
  lemma RightClickDarkens(m: seq<Byte>, x: nat, y: nat, columns: nat)
    requires ByteIndex(x, y, columns) < |m|
    ensures y * FrameWidth(columns) + x < |Pixels(RightClick(m, x, y, columns))|
    ensures Pixels(RightClick(m, x, y, columns))[y * FrameWidth(columns) + x] == Black
  {
    var k := ByteIndex(x, y, columns);
    ClearMaskDarkens(m[k], x);
    ClickHitsPixel(RightClick(m, x, y, columns), x, y, columns);
  }

  /** A right click changes no other pixel of the byte it edits. */
  lemma RightClickKeepsNeighbours(m: seq<Byte>, x: nat, y: nat, columns: nat)
    requires ByteIndex(x, y, columns) < |m|
    ensures var k := ByteIndex(x, y, columns);
            forall j :: 0 <= j < 8 && j != x % 8 ==> BitsAsPixels(RightClick(m, x, y, columns)[k])[j] == BitsAsPixels(m[k])[j]
  {
    ClearMaskDarkens(m[ByteIndex(x, y, columns)], x);
  }

  /** A message from the allocator to the view. */
  datatype Message = Grow | Free | Resize(columns: nat)

  /** What a non-blocking receive yields. */
  datatype Received = Empty | Disconnected | Got(message: Message)

  /** The state of the view's loop: its own mapping of the file, the number
      of bytes per row, the frame buffer, and whether the loop goes on. */
  class Viewer {
    var columns: nat
    var view: array<Byte>
    var buffer: seq<Pixel>
    var running: bool

    /** The loop runs only with a positive row width, since the height is
        the mapping's length divided by it. */
    ghost predicate Valid()
      reads this
    {
      running ==> columns > 0
    }

    /** A view of a file with contents `file`. With zero columns the height
        computation divides by zero and the loop never starts. */
    constructor(file: seq<Byte>, columns: nat)
      ensures Valid()
      ensures fresh(view) && view[..] == file && this.columns == columns && buffer == []
      ensures running == (columns > 0)
    {
      this.columns := columns;
      view := new Byte[|file|](i requires 0 <= i < |file| => file[i]);
      buffer := [];
      running := columns > 0;
    }

    /** A new mapping of the file and an empty frame buffer. */
    method Remap(file: seq<Byte>)
      requires columns > 0
      modifies this`view, this`buffer
      ensures fresh(view) && view[..] == file && buffer == []
    {
      view := new Byte[|file|](i requires 0 <= i < |file| => file[i]);
      buffer := [];
    }

    /** Reacting to what the channel yields; `file` is the file's contents
        at that moment. Nothing happens on an empty channel. `Free` or a
        disconnected channel ends the loop. `Grow` maps the file afresh and
        keeps the row width. `Resize` sets the row width and maps the file
        afresh; a width of zero divides by zero and ends the loop. */
    method Receive(r: Received, file: seq<Byte>)
      requires Valid() && running
      modifies this
      ensures Valid()
      ensures r == Empty ==>
                running && columns == old(columns) && view == old(view) && buffer == old(buffer)
      ensures r == Disconnected || r == Got(Free) ==>
                !running && columns == old(columns) && view == old(view) && buffer == old(buffer)
      ensures r == Got(Grow) ==>
                running && columns == old(columns) && fresh(view) && view[..] == file && buffer == []
      ensures r.Got? && r.message.Resize? ==>
                && columns == r.message.columns
                && (running <==> columns > 0)
                && (running ==> fresh(view) && view[..] == file && buffer == [])
                && (!running ==> view == old(view) && buffer == old(buffer))
    {
      match r
      case Empty =>
      case Disconnected =>
        running := false;
      case Got(Free) =>
        running := false;
      case Got(Grow) =>
        Remap(file);
      case Got(Resize(c)) =>
        columns := c;
        if c == 0 {
          running := false;
        } else {
          Remap(file);
        }
    }

    /** The frame buffer is cleared and refilled with the pixels of every
        byte of the mapping. */
    method Redraw()
      modifies this`buffer
      ensures buffer == Pixels(view[..])
    {
      buffer := [];
      var i := 0;
      while i < view.Length
        invariant 0 <= i <= view.Length
        invariant buffer == Pixels(view[..i])
      {
        assert view[..i + 1] == view[..i] + [view[i]];
        PixelsAppend(view[..i], view[i]);
        buffer := buffer + BitsAsPixels(view[i]);
        i := i + 1;
      }
      assert view[..i] == view[..];
    }

    /** A left click at pixel `(x, y)` sets the bit shown there with the
        mask `1 << (7 - x % 8)` (see `MaskIsShift`). */
    method SetBitAt(x: nat, y: nat)
      requires ByteIndex(x, y, columns) < view.Length
      modifies view
      ensures view[..] == LeftClick(old(view[..]), x, y, columns)
    {
      var k := x / 8 + y * columns;
      ghost var m := view[..];
      view[k] := view[k] | Mask(x);
      assert view[..] == m[k := m[k] | Mask(x)];
    }

    /** A right click at pixel `(x, y)` clears the bit shown there with the
        mask `1 << (7 - x % 8)` (see `MaskIsShift`). */
    method ClearBitAt(x: nat, y: nat)
      requires ByteIndex(x, y, columns) < view.Length
      modifies view
      ensures view[..] == RightClick(old(view[..]), x, y, columns)
    {
      var k := x / 8 + y * columns;
      ghost var m := view[..];
      view[k] := view[k] & !Mask(x);
      assert view[..] == m[k := m[k] & !Mask(x)];
    }
  }
}
