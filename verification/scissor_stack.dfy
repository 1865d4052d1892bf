/**
 * The nested clipping regions of the UI (Sources/HelbreathRaylib/UI/ScissorStack.h):
 * every pushed rectangle is cut down to the region below it, so drawing is
 * clipped to the intersection of all open regions, and the GPU scissor test
 * is on exactly when the innermost region is non-empty.
 */
module ScissorStackModel {

  /** `ScissorRect`: a rectangle of whole pixels. */
  datatype ScissorRect = ScissorRect(x: int, y: int, width: int, height: int)

  /** `IsValid`: the rectangle covers at least one pixel. */
  predicate IsValid(r: ScissorRect)
  {
    r.width > 0 && r.height > 0
  }

  function Max(a: int, b: int): int
  {
    if a >= b then a else b
  }

  function Min(a: int, b: int): int
  {
    if a <= b then a else b
  }

  /** The pixel (px, py) is inside r: the left and top edges belong to it, the right and bottom ones do not. */
  predicate Contains(r: ScissorRect, px: int, py: int)
  {
    r.x <= px < r.x + r.width && r.y <= py < r.y + r.height
  }

  /** `Intersect` (ScissorStack.h:22-34). */
  function Intersect(a: ScissorRect, b: ScissorRect): (r: ScissorRect)
    ensures r.width >= 0 && r.height >= 0
  {
    var x1 := Max(a.x, b.x);
    var y1 := Max(a.y, b.y);
    var x2 := Min(a.x + a.width, b.x + b.width);
    var y2 := Min(a.y + a.height, b.y + b.height);
    ScissorRect(x1, y1, Max(0, x2 - x1), Max(0, y2 - y1))
  }

  /** The intersection holds exactly the pixels that lie in both rectangles. */
  lemma IntersectContains(a: ScissorRect, b: ScissorRect, px: int, py: int)
    ensures Contains(Intersect(a, b), px, py) <==> Contains(a, px, py) && Contains(b, px, py)
  {
  }

  /** Intersection does not depend on the order of its operands. */
  lemma IntersectCommutes(a: ScissorRect, b: ScissorRect)
    ensures Intersect(a, b) == Intersect(b, a)
  {
  }

  /** A non-empty intersection lies inside both operands, edge for edge. */
  lemma IntersectInside(a: ScissorRect, b: ScissorRect)
    requires IsValid(Intersect(a, b))
    ensures var r := Intersect(a, b);
      a.x <= r.x && r.x + r.width <= a.x + a.width && a.y <= r.y && r.y + r.height <= a.y + a.height &&
      b.x <= r.x && r.x + r.width <= b.x + b.width && b.y <= r.y && r.y + r.height <= b.y + b.height
  {
  }

  /** Every pixel of `inner` is a pixel of `outer`. */
  ghost predicate Inside(inner: ScissorRect, outer: ScissorRect)
  {
    forall px, py | Contains(inner, px, py) :: Contains(outer, px, py)
  }

  /** Every region of the stack lies inside every region below it. */
  ghost predicate Nested(s: seq<ScissorRect>)
  {
    forall i, j | 0 <= i < j < |s| :: Inside(s[j], s[i])
  }

  /** The regions a sequence of `Push` calls leaves on an empty stack. */
  function PushAll(s: seq<ScissorRect>, pushed: seq<ScissorRect>): (r: seq<ScissorRect>)
    decreases |pushed|
  {
    if |pushed| == 0 then s
    else PushAll(if |s| == 0 then [pushed[0]] else s + [Intersect(pushed[0], s[|s| - 1])], pushed[1..])
  }

  /**
   * The innermost region after a run of pushes on an empty stack holds
   * exactly the pixels that lie in every pushed rectangle.
   */
  lemma {:induction false} PushAllClipsToAll(s: seq<ScissorRect>, pushed: seq<ScissorRect>, px: int, py: int)
    requires |s| > 0 || |pushed| > 0
    ensures var r := PushAll(s, pushed);
      |r| == |s| + |pushed| &&
      (Contains(r[|r| - 1], px, py) <==>
        (|s| == 0 || Contains(s[|s| - 1], px, py)) && forall i | 0 <= i < |pushed| :: Contains(pushed[i], px, py))
    decreases |pushed|
  {
    if |pushed| > 0 {
      var next := if |s| == 0 then [pushed[0]] else s + [Intersect(pushed[0], s[|s| - 1])];
      if |s| > 0 {
        IntersectContains(pushed[0], s[|s| - 1], px, py);
      }
      PushAllClipsToAll(next, pushed[1..], px, py);
      assert forall i | 0 <= i < |pushed[1..]| :: pushed[1..][i] == pushed[i + 1];
      if forall i | 0 <= i < |pushed[1..]| :: Contains(pushed[1..][i], px, py) {
        assert forall i | 1 <= i < |pushed| :: Contains(pushed[i], px, py) by {
          forall i | 1 <= i < |pushed| ensures Contains(pushed[i], px, py) {
            assert pushed[i] == pushed[1..][i - 1];
          }
        }
      }
    }
  }

  /** `UI::ScissorStack`: the stack of regions and whether the scissor test is on. */
  class ScissorStack {
    var stack: seq<ScissorRect>
    var scissorActive: bool

    ghost predicate Valid()
      reads this
    {
      Nested(stack) && scissorActive == (|stack| > 0 && IsValid(stack[|stack| - 1]))
    }

    constructor ()
      ensures Valid() && stack == [] && !scissorActive
    {
      stack := [];
      scissorActive := false;
    }

    /** `ApplyCurrentScissor` (ScissorStack.h:132-176), without the batch flush and the zoom scaling. */
    method ApplyCurrentScissor()
      modifies this
      ensures stack == old(stack)
      ensures scissorActive == (|stack| > 0 && IsValid(stack[|stack| - 1]))
    {
      if |stack| == 0 {
        scissorActive := false;
        return;
      }
      var rect := stack[|stack| - 1];
      if !IsValid(rect) {
        scissorActive := false;
        return;
      }
      scissorActive := true;
    }

    /** `Push` (ScissorStack.h:38-48): the new region, clipped to the current one if there is one. */
    method Push(x: int, y: int, width: int, height: int)
      requires Valid()
      modifies this
      ensures Valid()
      ensures |old(stack)| == 0 ==> stack == [ScissorRect(x, y, width, height)]
      ensures |old(stack)| > 0 ==> stack == old(stack) + [Intersect(ScissorRect(x, y, width, height), old(stack)[|old(stack)| - 1])]
    {
      var rect := ScissorRect(x, y, width, height);
      if |stack| > 0 {
        rect := Intersect(rect, stack[|stack| - 1]);
        forall px, py | Contains(rect, px, py)
          ensures Contains(stack[|stack| - 1], px, py)
        {
          IntersectContains(ScissorRect(x, y, width, height), stack[|stack| - 1], px, py);
        }
        assert Inside(rect, stack[|stack| - 1]);
      }
      stack := stack + [rect];
      ApplyCurrentScissor();
    }

    /** `Pop` (ScissorStack.h:60-71): nothing happens on an empty stack. */
    method Pop()
      requires Valid()
      modifies this
      ensures Valid()
      ensures |old(stack)| == 0 ==> stack == old(stack) && scissorActive == old(scissorActive)
      ensures |old(stack)| > 0 ==> stack == old(stack)[..|old(stack)| - 1]
    {
      if |stack| == 0 {
        return;
      }
      stack := stack[..|stack| - 1];
      ApplyCurrentScissor();
    }

    /** `GetCurrent` (ScissorStack.h:74-84): the innermost region, or the whole screen when none is open. */
    function GetCurrent(screenWidth: int, screenHeight: int): (r: ScissorRect)
      reads this
      ensures |stack| == 0 ==> r == ScissorRect(0, 0, screenWidth, screenHeight)
      ensures |stack| > 0 ==> r == stack[|stack| - 1]
    {
      if |stack| == 0 then ScissorRect(0, 0, screenWidth, screenHeight) else stack[|stack| - 1]
    }

    /** `IsEmpty` (ScissorStack.h:87-89). */
    predicate IsEmpty()
      reads this
    {
      |stack| == 0
    }

    /** `GetDepth` (ScissorStack.h:92-94). */
    function GetDepth(): (d: nat)
      reads this
      ensures d == 0 <==> IsEmpty()
    {
      |stack|
    }

    /**
     * `Clear` (ScissorStack.h:97-100): every region dropped and the scissor
     * test turned off. `scissorActive` stands for the GPU test; the source's
     * own `_scissor_active` flag stays set, so its next `ApplyCurrentScissor`
     * issues a redundant `EndScissorMode`.
     */
    method Clear()
      modifies this
      ensures Valid() && stack == [] && !scissorActive
    {
      stack := [];
      scissorActive := false;
    }
  }

  /**
   * `ScopedScissor` (ScissorStack.h:103-126): a region pushed when the scope
   * opens and popped when it closes leaves the stack and the scissor test as they were.
   */
  method ScopedScissor(s: ScissorStack, x: int, y: int, width: int, height: int)
    requires s.Valid()
    modifies s
    ensures s.Valid() && s.stack == old(s.stack) && s.scissorActive == old(s.scissorActive)
  {
    s.Push(x, y, width, height);
    s.Pop();
  }
}
