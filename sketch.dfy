/** The per-image animation engine of the gallery: an original RGBA buffer
    that never changes, a display buffer, the progress cursor and the hover
    flag, driven by the hover handlers and by one `draw` call per frame. */
module Sketch {
  import opened Raster
  import opened ColumnSort
  import opened Cursor

  /** How the display buffer relates to the original at a given cursor:
      every column left of the cursor is a sorted, opaque column of the
      original, and every byte of a column at or right of it is the
      original's. */
  ghost predicate Consistent(disp: seq<Byte>, orig: seq<Byte>, w: nat, h: nat, cursor: nat)
  {
    |disp| == |orig| == Size(w, h) && cursor <= w
    && (forall x :: 0 <= x < cursor ==> IsSortedColumnOf(Column(disp, w, h, x), Column(orig, w, h, x)))
    && (forall i :: 0 <= i < |disp| && cursor <= Col(w, i) ==> disp[i] == orig[i])
  }

  /** With the cursor at 0 the display shows exactly the original, and
      only then. */
  lemma ResetIffCursorZero(disp: seq<Byte>, orig: seq<Byte>, w: nat, h: nat)
    requires |disp| == |orig| == Size(w, h)
    ensures Consistent(disp, orig, w, h, 0) <==> disp == orig
  {
  }

  /** With the cursor at W every column of the display is sorted by
      brightness and fully opaque. */
  lemma SortedWhenCursorAtWidth(disp: seq<Byte>, orig: seq<Byte>, w: nat, h: nat)
    requires Consistent(disp, orig, w, h, w)
    ensures forall x, y1, y2 :: 0 <= x < w && 0 <= y1 <= y2 < h ==>
      Brightness(PixelAt(disp, w, h, x, y1)) <= Brightness(PixelAt(disp, w, h, x, y2))
    ensures forall x, y :: 0 <= x < w && 0 <= y < h ==> PixelAt(disp, w, h, x, y).a == 255
  {
    forall x, y1, y2 | 0 <= x < w && 0 <= y1 <= y2 < h
      ensures Brightness(PixelAt(disp, w, h, x, y1)) <= Brightness(PixelAt(disp, w, h, x, y2))
    {
      var col := Column(disp, w, h, x);
      assert col[y1] == PixelAt(disp, w, h, x, y1) && col[y2] == PixelAt(disp, w, h, x, y2);
    }
    forall x, y | 0 <= x < w && 0 <= y < h
      ensures PixelAt(disp, w, h, x, y).a == 255
    {
      assert Column(disp, w, h, x)[y] == PixelAt(disp, w, h, x, y);
    }
  }

  /** `copy` of the full-height block of columns [lo, hi) from src to the
      same place in dst. */
  method CopyColumns(src: array<Byte>, dst: array<Byte>, w: nat, h: nat, lo: nat, hi: nat)
    requires src.Length == dst.Length == Size(w, h) && lo <= hi <= w
    modifies dst
    ensures forall i :: 0 <= i < dst.Length ==>
      dst[i] == if lo <= Col(w, i) < hi then old(src[i]) else old(dst[i])
  {
    for i := 0 to dst.Length
      invariant forall k :: 0 <= k < dst.Length ==>
        dst[k] == if k < i && lo <= Col(w, k) < hi then old(src[k]) else old(dst[k])
    {
      if lo <= Col(w, i) < hi {
        dst[i] := src[i];
      }
    }
  }

  /** Copying every column makes dst a copy of src. */
  lemma FullCopy(src: seq<Byte>, dst: seq<Byte>, w: nat, h: nat)
    requires |src| == |dst| == Size(w, h)
    requires forall i :: 0 <= i < |dst| && 0 <= Col(w, i) < w ==> dst[i] == src[i]
    ensures dst == src
  {
    forall i | 0 <= i < |dst|
      ensures dst[i] == src[i]
    {
      Compose(w, h, i);
    }
  }

  /** Reads column x into a fresh array of pixels, top to bottom (the
      `columnPixels.push` loop). */
  method ReadColumn(buf: array<Byte>, w: nat, h: nat, x: nat) returns (column: array<Pixel>)
    requires buf.Length == Size(w, h) && x < w
    ensures fresh(column)
    ensures column[..] == Column(buf[..], w, h, x)
  {
    column := new Pixel[h];
    for y := 0 to h
      invariant forall k :: 0 <= k < y ==> column[k] == PixelAt(buf[..], w, h, x, k)
    {
      IdxInBounds(w, h, x, y, 3);
      var index := (y * w + x) * 4;
      column[y] := Pixel(buf[index], buf[index + 1], buf[index + 2], buf[index + 3]);
    }
  }

  /** Writes the pixels into column x, top to bottom, with alpha forced to
      255; every byte outside column x is left alone. */
  method WriteOpaqueColumn(dst: array<Byte>, w: nat, h: nat, x: nat, column: array<Pixel>)
    requires dst.Length == Size(w, h) && x < w && column.Length == h
    modifies dst
    ensures Column(dst[..], w, h, x) == AllOpaque(column[..])
    ensures forall i :: 0 <= i < dst.Length && Col(w, i) != x ==> dst[i] == old(dst[i])
  {
    for y := 0 to h
      invariant forall k :: 0 <= k < y ==> PixelAt(dst[..], w, h, x, k) == Opaque(column[k])
      invariant forall i :: 0 <= i < dst.Length && !(Col(w, i) == x && Row(w, i) < y) ==> dst[i] == old(dst[i])
    {
      ghost var before := dst[..];
      IdxInBounds(w, h, x, y, 3);
      Decompose(w, x, y, 0);
      Decompose(w, x, y, 1);
      Decompose(w, x, y, 2);
      Decompose(w, x, y, 3);
      var sortedColor := column[y];
      var index := (y * w + x) * 4;
      dst[index] := sortedColor.r;
      dst[index + 1] := sortedColor.g;
      dst[index + 2] := sortedColor.b;
      dst[index + 3] := 255;
      forall k | 0 <= k < y
        ensures PixelAt(dst[..], w, h, x, k) == PixelAt(before, w, h, x, k)
      {
        SamePixel(dst[..], before, w, h, x, k, y);
      }
    }
    assert Column(dst[..], w, h, x) == AllOpaque(column[..]);
  }

  /** The bytes of pixel (x, k) are not those of pixel (x, y) for k != y. */
  lemma SamePixel(a: seq<Byte>, b: seq<Byte>, w: nat, h: nat, x: nat, k: nat, y: nat)
    requires |a| == |b| == Size(w, h) && x < w && k < h && k != y
    requires forall i :: 0 <= i < |a| && !(Col(w, i) == x && Row(w, i) == y) ==> a[i] == b[i]
    ensures PixelAt(a, w, h, x, k) == PixelAt(b, w, h, x, k)
  {
    forall c | 0 <= c < 4
      ensures Idx(w, x, k, c) < |a| && a[Idx(w, x, k, c)] == b[Idx(w, x, k, c)]
    {
      Decompose(w, x, k, c);
      IdxInBounds(w, h, x, k, c);
    }
  }

  /** One column of a sorting frame: read column x of src, sort it by
      brightness, write it into dst with alpha 255. */
  method SortColumn(src: array<Byte>, dst: array<Byte>, w: nat, h: nat, x: nat)
    requires src != dst && src.Length == dst.Length == Size(w, h) && x < w
    modifies dst
    ensures IsSortedColumnOf(Column(dst[..], w, h, x), Column(src[..], w, h, x))
    ensures forall i :: 0 <= i < dst.Length && Col(w, i) != x ==> dst[i] == old(dst[i])
  {
    var columnPixels := ReadColumn(src, w, h, x);
    ghost var unsorted := columnPixels[..];
    SortByBrightness(columnPixels);
    WriteOpaqueColumn(dst, w, h, x, columnPixels);
    OpaqueSortedIsSortedColumn(columnPixels[..], unsorted);
  }

  /** The columns [lo, hi) of a sorting frame, left to right. */
  method SortColumns(src: array<Byte>, dst: array<Byte>, w: nat, h: nat, lo: nat, hi: nat)
    requires src != dst && src.Length == dst.Length == Size(w, h) && lo <= hi <= w
    modifies dst
    ensures forall x :: lo <= x < hi ==>
      IsSortedColumnOf(Column(dst[..], w, h, x), Column(src[..], w, h, x))
    ensures forall i :: 0 <= i < dst.Length && !(lo <= Col(w, i) < hi) ==> dst[i] == old(dst[i])
  {
    for x := lo to hi
      invariant forall c :: lo <= c < x ==>
        IsSortedColumnOf(Column(dst[..], w, h, c), Column(src[..], w, h, c))
      invariant forall i :: 0 <= i < dst.Length && !(lo <= Col(w, i) < x) ==> dst[i] == old(dst[i])
    {
      ghost var mid := dst[..];
      SortColumn(src, dst, w, h, x);
      forall c | lo <= c < x
        ensures Column(dst[..], w, h, c) == Column(mid, w, h, c)
      {
        ColumnFrame(dst[..], mid, w, h, c);
      }
    }
  }

  /** A sorting frame that sorts the columns [cursor, end) and nothing else
      moves the invariant from cursor to end. */
  lemma SortFrameKeepsConsistent(before: seq<Byte>, after: seq<Byte>, orig: seq<Byte>, w: nat, h: nat, cursor: nat, end: nat)
    requires Consistent(before, orig, w, h, cursor) && cursor <= end <= w && |after| == |before|
    requires forall x :: cursor <= x < end ==>
      IsSortedColumnOf(Column(after, w, h, x), Column(orig, w, h, x))
    requires forall i :: 0 <= i < |after| && !(cursor <= Col(w, i) < end) ==> after[i] == before[i]
    ensures Consistent(after, orig, w, h, end)
  {
    forall x | 0 <= x < cursor
      ensures Column(after, w, h, x) == Column(before, w, h, x)
    {
      ColumnFrame(after, before, w, h, x);
    }
  }

  /** A restoring frame that copies the original's columns [start, end) back,
      where the block reaches at least to the old cursor, moves the invariant
      from cursor to start. */
  lemma RestoreFrameKeepsConsistent(before: seq<Byte>, after: seq<Byte>, orig: seq<Byte>, w: nat, h: nat, cursor: nat, start: nat, end: nat)
    requires Consistent(before, orig, w, h, cursor) && start <= cursor && (cursor <= end || end == w)
    requires |after| == |before|
    requires forall i :: 0 <= i < |after| ==>
      after[i] == if start <= Col(w, i) < end then orig[i] else before[i]
    ensures Consistent(after, orig, w, h, start)
  {
    forall x | 0 <= x < start
      ensures Column(after, w, h, x) == Column(before, w, h, x)
    {
      ColumnFrame(after, before, w, h, x);
    }
    forall i | 0 <= i < |after| && start <= Col(w, i)
      ensures after[i] == orig[i]
    {
      if Col(w, i) >= end {
        Compose(w, h, i);
      }
    }
  }

  class Engine {
    const width: nat
    const height: nat
    /** The loaded image (`originalImg.pixels`); never written. */
    const original: array<Byte>
    /** The image that is drawn (`displayImg.pixels`). */
    const display: array<Byte>
    /** `sortProgress`. */
    var cursor: nat
    /** `isHovering`. */
    var hovering: bool
    /** Whether p5's draw loop is running (`p.loop` / `p.noLoop`). */
    var looping: bool

    ghost predicate Valid()
      reads this, original, display
    {
      original != display
      && Consistent(display[..], original[..], width, height, cursor)
    }

    /** `p.setup`: a display buffer of the image's size holding a copy of
        the original; nothing hovered, cursor 0, draw loop stopped. */
    constructor (w: nat, h: nat, img: array<Byte>)
      requires img.Length == Size(w, h)
      ensures Valid()
      ensures width == w && height == h && original == img && fresh(display)
      ensures display[..] == original[..]
      ensures cursor == 0 && !hovering && !looping
    {
      width, height := w, h;
      original := img;
      display := new Byte[Size(w, h)];
      cursor, hovering, looping := 0, false, false;
      new;
      CopyColumns(original, display, w, h, 0, w);
      FullCopy(original[..], display[..], w, h);
    }

    /** `startSort` (mouse over): restart the animation from the original. */
    method StartSort()
      requires Valid()
      modifies this, display
      ensures Valid()
      ensures hovering && cursor == 0 && looping
      ensures display[..] == original[..]
      ensures original[..] == old(original[..])
    {
      hovering := true;
      cursor := 0;
      CopyColumns(original, display, width, height, 0, width);
      FullCopy(original[..], display[..], width, height);
      looping := true;
    }

    /** `startReset` (mouse out): only the hover flag changes, and the draw
        loop is resumed. */
    method StartReset()
      requires Valid()
      modifies this
      ensures Valid()
      ensures !hovering && looping && cursor == old(cursor)
      ensures display[..] == old(display[..]) && original[..] == old(original[..])
    {
      hovering := false;
      looping := true;
    }

    /** `p.draw`: one frame. Reports whether it stopped the draw loop. */
    method Tick() returns (stopped: bool)
      requires Valid()
      modifies this`cursor, this`looping, display
      ensures Valid()
      ensures stopped == AtBoundary(old(cursor), hovering, width)
      ensures cursor == NextCursor(old(cursor), hovering, width)
      ensures looping == (old(looping) && !stopped)
      ensures original[..] == old(original[..])
      ensures stopped ==> display[..] == old(display[..])
      ensures hovering ==> forall x :: old(cursor) <= x < cursor ==>
        IsSortedColumnOf(Column(display[..], width, height, x), Column(original[..], width, height, x))
      ensures hovering ==> forall i :: 0 <= i < display.Length && !(old(cursor) <= Col(width, i) < cursor) ==>
        display[i] == old(display[i])
      ensures !hovering && !stopped ==> forall i :: 0 <= i < display.Length ==>
        display[i] == if cursor <= Col(width, i) < BlockEnd(cursor, width) then original[i] else old(display[i])
    {
      ghost var before := display[..];
      stopped := false;
      if hovering {
        if cursor < width {
          var endCol := BlockEnd(cursor, width);
          SortColumns(original, display, width, height, cursor, endCol);
          SortFrameKeepsConsistent(before, display[..], original[..], width, height, cursor, endCol);
          cursor := endCol;
        } else {
          looping := false;
          stopped := true;
        }
      } else {
        if cursor > 0 {
          var startCol := RestoreStart(cursor);
          var endCopy := BlockEnd(startCol, width);
          CopyColumns(original, display, width, height, startCol, endCopy);
          RestoreFrameKeepsConsistent(before, display[..], original[..], width, height, cursor, startCol, endCopy);
          cursor := startCol;
        } else {
          looping := false;
          stopped := true;
        }
      }
    }
  }

  /** Hover-start then hover-end before any frame runs: the next frame finds
      the cursor at 0, changes nothing and stops the loop. */
  method HoverAndLeaveBeforeAnyFrame(img: array<Byte>, w: nat, h: nat)
    requires img.Length == Size(w, h)
  {
    var e := new Engine(w, h, img);
    e.StartSort();
    e.StartReset();
    var stopped := e.Tick();
    assert stopped && !e.looping && e.cursor == 0;
    assert e.display[..] == e.original[..];
  }

  /** n frames with the hover state held: the cursor ends at CursorAfter. */
  method Run(e: Engine, n: nat)
    requires e.Valid()
    modifies e, e.display
    ensures e.Valid()
    ensures e.hovering == old(e.hovering)
    ensures e.original[..] == old(e.original[..])
    ensures e.cursor == CursorAfter(old(e.cursor), old(e.hovering), e.width, n)
    decreases n
  {
    if n > 0 {
      var _ := e.Tick();
      Run(e, n - 1);
    }
  }

  /** Hover-end from any state, then ceil(cursor / 4) frames: the display is
      the original again, byte for byte. */
  method LeaveAndRestore(e: Engine)
    requires e.Valid()
    modifies e, e.display
    ensures e.Valid() && e.cursor == 0
    ensures e.display[..] == e.original[..]
  {
    e.StartReset();
    var c := e.cursor;
    Run(e, FramesFor(c));
    RestoreConverges(c, e.width, FramesFor(c));
    ResetIffCursorZero(e.display[..], e.original[..], e.width, e.height);
  }

  /** Hover-start from any state, then ceil(W / 4) frames: every column of
      the display is sorted by brightness and fully opaque. */
  method HoverUntilSorted(e: Engine)
    requires e.Valid()
    modifies e, e.display
    ensures e.Valid() && e.cursor == e.width
    ensures forall x, y1, y2 :: 0 <= x < e.width && 0 <= y1 <= y2 < e.height ==>
      Brightness(PixelAt(e.display[..], e.width, e.height, x, y1))
        <= Brightness(PixelAt(e.display[..], e.width, e.height, x, y2))
    ensures forall x, y :: 0 <= x < e.width && 0 <= y < e.height ==>
      PixelAt(e.display[..], e.width, e.height, x, y).a == 255
  {
    e.StartSort();
    Run(e, FramesFor(e.width));
    SortConverges(0, e.width, FramesFor(e.width));
    SortedWhenCursorAtWidth(e.display[..], e.original[..], e.width, e.height);
  }

  /** Hover-start twice in a row leaves the same state as once. */
  method RepeatedStartSort(e: Engine)
    requires e.Valid()
    modifies e, e.display
  {
    e.StartSort();
    ghost var once := e.display[..];
    ghost var cursorOnce := e.cursor;
    e.StartSort();
    assert e.display[..] == once && e.cursor == cursorOnce && e.hovering;
  }
}
