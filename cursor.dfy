/** The progress cursor `sortProgress`: how many columns, from the left,
    are in the sorted state, and how one frame moves it. */
module Cursor {

  /** Columns processed per frame (ANIMATION_SPEED). */
  const AnimationSpeed: nat := 4

  /** Right end of the block of `speed` columns starting at column start,
      clipped at the right edge of the image: `min(start + speed, W)`. A
      sorting frame sorts the block from the cursor; a restoring frame copies
      back the block from its start column, and p5's `copy` clips it. */
  function BlockEnd(start: nat, w: nat): (r: nat)
    requires start < w
    ensures start < r <= w
    ensures r - start <= AnimationSpeed
    ensures r == start + AnimationSpeed || r == w
  {
    if start + AnimationSpeed < w then start + AnimationSpeed else w
  }

  /** Left end of the block a restoring frame copies back: `max(0, cursor - speed)`. */
  function RestoreStart(cursor: nat): (r: nat)
    requires cursor > 0
    ensures r < cursor
    ensures cursor - r <= AnimationSpeed
    ensures r == cursor - AnimationSpeed || r == 0
  {
    if cursor >= AnimationSpeed then cursor - AnimationSpeed else 0
  }

  /** The frame changes nothing: the cursor already sits at the edge the
      hover state drives it to (the two `noLoop` branches). */
  predicate AtBoundary(cursor: nat, hovering: bool, w: nat)
  {
    if hovering then cursor >= w else cursor == 0
  }

  /** The cursor after one frame. */
  function NextCursor(cursor: nat, hovering: bool, w: nat): (r: nat)
    requires cursor <= w
    ensures r <= w
    ensures hovering && cursor < w ==> cursor < r <= cursor + AnimationSpeed
    ensures !hovering && cursor > 0 ==> r < cursor <= r + AnimationSpeed
    ensures AtBoundary(cursor, hovering, w) <==> r == cursor
  {
    if hovering then
      if cursor < w then BlockEnd(cursor, w) else cursor
    else
      if cursor > 0 then RestoreStart(cursor) else cursor
  }

  /** The cursor after n frames with the hover state held constant. */
  function CursorAfter(cursor: nat, hovering: bool, w: nat, n: nat): (r: nat)
    requires cursor <= w
    ensures r <= w
    decreases n
  {
    if n == 0 then cursor else CursorAfter(NextCursor(cursor, hovering, w), hovering, w, n - 1)
  }

  function Min(a: int, b: int): int
  {
    if a <= b then a else b
  }

  function Max(a: int, b: int): int
  {
    if a >= b then a else b
  }

  /** While hovering, n frames advance the cursor by n blocks, up to W. */
  lemma {:induction false} SortingProgress(cursor: nat, w: nat, n: nat)
    requires cursor <= w
    ensures CursorAfter(cursor, true, w, n) == Min(cursor + n * AnimationSpeed, w)
    decreases n
  {
    if n > 0 {
      var next := NextCursor(cursor, true, w);
      SortingProgress(next, w, n - 1);
      if cursor == w {
        assert next == w;
      } else {
        assert next == Min(cursor + AnimationSpeed, w);
      }
    }
  }

  /** While not hovering, n frames move the cursor back by n blocks, down to 0. */
  lemma {:induction false} RestoringProgress(cursor: nat, w: nat, n: nat)
    requires cursor <= w
    ensures CursorAfter(cursor, false, w, n) == Max(cursor - n * AnimationSpeed, 0)
    decreases n
  {
    if n > 0 {
      var next := NextCursor(cursor, false, w);
      RestoringProgress(next, w, n - 1);
      if cursor == 0 {
        assert next == 0;
      } else {
        assert next == Max(cursor - AnimationSpeed, 0);
      }
    }
  }

  /** Frames needed to cover d columns: the ceiling of d / speed. */
  function FramesFor(d: nat): (n: nat)
    ensures d <= n * AnimationSpeed
    ensures n > 0 ==> (n - 1) * AnimationSpeed < d
  {
    (d + AnimationSpeed - 1) / AnimationSpeed
  }

  /** Hovering from any cursor, the cursor reaches W after exactly
      FramesFor(W - cursor) frames, and not before. */
  lemma SortConverges(cursor: nat, w: nat, n: nat)
    requires cursor <= w
    ensures n >= FramesFor(w - cursor) ==> CursorAfter(cursor, true, w, n) == w
    ensures n < FramesFor(w - cursor) ==> CursorAfter(cursor, true, w, n) < w
  {
    SortingProgress(cursor, w, n);
    var f := FramesFor(w - cursor);
    if n >= f {
      assert n * AnimationSpeed >= f * AnimationSpeed;
    } else {
      assert n * AnimationSpeed <= (f - 1) * AnimationSpeed;
    }
  }

  /** Not hovering, the cursor reaches 0 after exactly FramesFor(cursor)
      frames, and not before. */
  lemma RestoreConverges(cursor: nat, w: nat, n: nat)
    requires cursor <= w
    ensures n >= FramesFor(cursor) ==> CursorAfter(cursor, false, w, n) == 0
    ensures n < FramesFor(cursor) ==> CursorAfter(cursor, false, w, n) > 0
  {
    RestoringProgress(cursor, w, n);
    var f := FramesFor(cursor);
    if n >= f {
      assert n * AnimationSpeed >= f * AnimationSpeed;
    } else {
      assert n * AnimationSpeed <= (f - 1) * AnimationSpeed;
    }
  }
}
