/** The keyboard navigation hook (`src/hooks/useKeyboardNav.js`): `[` and
    `]` step through the focusable items of a container in document order,
    wrapping at the ends; `j` and `k` jump to the nearest item below or
    above the focused one. */
module KeyboardNav {
  import opened Wrappers

  // ---------------------------------------------------------------------
  // linear navigation

  datatype Direction = Forward | Backward

  function Step(dir: Direction): int
  {
    if dir == Forward then 1 else -1
  }

  /** `handleLinearNav(direction)` over `count` items, `current` being the
      `indexOf` of the focused element (-1 when it is not one of them):
      the index of the item to focus, `None` when there are no items.
      From no item, `]` goes to the first and `[` to the last; otherwise
      one step, wrapping around at either end. */
  function LinearNav(count: nat, current: int, dir: Direction): (next: Option<nat>)
    requires -1 <= current < count
    ensures next.None? <==> count == 0
    ensures next.Some? ==> next.value < count
    ensures next.Some? && current == -1 ==> next.value == if dir == Forward then 0 else count - 1
    ensures next.Some? && 0 <= current && dir == Forward ==>
      next.value == if current == count - 1 then 0 else current + 1
    ensures next.Some? && 0 <= current && dir == Backward ==>
      next.value == if current == 0 then count - 1 else current - 1
  {
    if count == 0 then None
    else if current == -1 then Some(if dir == Forward then 0 else count - 1)
    else
      WrappedStep(count, current, dir);
      Some((current + Step(dir) + count) % count)
  }

  /** `(current + step + length) % length` is one step with wrap-around. */
  lemma WrappedStep(count: nat, current: nat, dir: Direction)
    requires current < count
    ensures (current + Step(dir) + count) % count ==
      if dir == Forward then (if current == count - 1 then 0 else current + 1)
      else (if current == 0 then count - 1 else current - 1)
  {
    var x := current + Step(dir) + count;
    if dir == Forward {
      if current == count - 1 {
        ModUnique(x, count, 2, 0);
      } else {
        ModUnique(x, count, 1, current + 1);
      }
    } else {
      if current == 0 {
        ModUnique(x, count, 0, count - 1);
      } else {
        ModUnique(x, count, 1, current - 1);
      }
    }
  }

  /** Stepping forward then backward returns to the item started from. */
  lemma ForwardThenBackward(count: nat, current: nat)
    requires current < count
    ensures LinearNav(count, LinearNav(count, current, Forward).value, Backward) == Some(current)
  {
    var next := LinearNav(count, current, Forward).value;
    assert next == if current == count - 1 then 0 else current + 1;
  }

  /** Where `k` presses of `]` lead from item `current`. */
  function Presses(count: nat, current: nat, k: nat): (at: nat)
    requires current < count
    ensures at < count
  {
    if k == 0 then current else LinearNav(count, Presses(count, current, k - 1), Forward).value
  }

  /** `k` presses of `]` move `k` places forward modulo the number of items,
      so `count` presses visit every item once and come back. */
  lemma {:induction false} PressesVisitAll(count: nat, current: nat, k: nat)
    requires current < count
    ensures Presses(count, current, k) == (current + k) % count
    decreases k
  {
    if k > 0 {
      PressesVisitAll(count, current, k - 1);
      ModStep(current + k - 1, count);
    } else {
      ModUnique(current, count, 0, current);
    }
  }

  /** Adding one to a number moves its remainder one step, wrapping to 0. */
  lemma ModStep(a: nat, n: nat)
    requires n > 0
    ensures (if a % n == n - 1 then 0 else a % n + 1) == (a + 1) % n
  {
    var q, r := a / n, a % n;
    if r + 1 < n {
      ModUnique(a + 1, n, q, r + 1);
    } else {
      ModUnique(a + 1, n, q + 1, 0);
    }
  }

  /** The remainder is the one `r` in `[0, n)` with `x = q * n + r`. */
  lemma ModUnique(x: int, n: int, q: int, r: int)
    requires n > 0 && x == q * n + r && 0 <= r < n
    ensures x % n == r
  {
    var q', r' := x / n, x % n;
    assert (q' - q) * n == r - r';
    MultipleInOpenRange(q' - q, n);
  }

  lemma MultipleInOpenRange(d: int, n: int)
    requires n > 0 && -n < d * n < n
    ensures d == 0
  {
    MultiplesOutsideRange(d, n);
  }

  lemma MultiplesOutsideRange(d: int, n: int)
    requires n > 0
    ensures d >= 1 ==> d * n >= n
    ensures d <= -1 ==> d * n <= -n
  {
    assert d * n - n == (d - 1) * n;
    assert d * n + n == (d + 1) * n;
  }

  // ---------------------------------------------------------------------
  // geometric navigation

  datatype Vertical = Down | Up

  /** The centre of an item's bounding box. Coordinates are doubled
      (`2 * left + width`) so that they stay integers; doubling both
      centres scales every distance by four and keeps every comparison. */
  datatype Point = Point(x: int, y: int)

  function Center2(left: int, top: int, width: int, height: int): Point
  {
    Point(2 * left + width, 2 * top + height)
  }

  /** Visually below (`DOWN`) or above (`UP`) the focused item. */
  predicate Beyond(p: Point, from: Point, dir: Vertical)
  {
    if dir == Down then p.y > from.y else p.y < from.y
  }

  function Distance(p: Point, from: Point): int
  {
    (p.x - from.x) * (p.x - from.x) + (p.y - from.y) * (p.y - from.y)
  }

  /** Item `j` is a candidate for a jump from item `current`. */
  predicate IsCandidate(items: seq<Point>, current: nat, dir: Vertical, j: int)
    requires current < |items|
  {
    0 <= j < |items| && j != current && Beyond(items[j], items[current], dir)
  }

  /** `t` is the item the jump picks: a candidate at the least distance,
      the earliest in document order among those at that distance. */
  predicate IsBestCandidate(items: seq<Point>, current: nat, dir: Vertical, t: nat)
    requires current < |items|
  {
    && IsCandidate(items, current, dir, t)
    && (forall j :: 0 <= j < |items| && IsCandidate(items, current, dir, j) ==>
          Distance(items[t], items[current]) <= Distance(items[j], items[current]))
    && (forall j :: 0 <= j < t && IsCandidate(items, current, dir, j) ==>
          Distance(items[t], items[current]) < Distance(items[j], items[current]))
  }

  /** At most one item is the best candidate. */
  lemma BestCandidateUnique(items: seq<Point>, current: nat, dir: Vertical, t: nat, u: nat)
    requires current < |items|
    requires IsBestCandidate(items, current, dir, t) && IsBestCandidate(items, current, dir, u)
    ensures t == u
  {
  }

  /** `handleGeometricNav(direction)`: `current` is the focused item's index,
      or any value outside the items when focus is elsewhere. */
  method GeometricNav(items: seq<Point>, current: int, dir: Vertical) returns (target: Option<nat>)
    ensures !(0 <= current < |items|) ==> target == if |items| > 0 then Some(0) else None
    ensures 0 <= current < |items| && target.Some? ==> IsBestCandidate(items, current, dir, target.value)
    ensures 0 <= current < |items| && target.None? ==>
      forall j :: 0 <= j < |items| ==> !IsCandidate(items, current, dir, j)
  {
    if !(0 <= current < |items|) {
      return if |items| > 0 then Some(0) else None;
    }
    var here := items[current];
    target := None;
    var minDistance := 0;
    var i := 0;
    while i < |items|
      invariant 0 <= i <= |items|
      invariant target.None? ==> forall j :: 0 <= j < i ==> !IsCandidate(items, current, dir, j)
      invariant target.Some? ==> target.value < i && IsCandidate(items, current, dir, target.value)
      invariant target.Some? ==> minDistance == Distance(items[target.value], here)
      invariant target.Some? ==> forall j :: 0 <= j < i && IsCandidate(items, current, dir, j) ==>
        minDistance <= Distance(items[j], here)
      invariant target.Some? ==> forall j :: 0 <= j < target.value && IsCandidate(items, current, dir, j) ==>
        minDistance < Distance(items[j], here)
    {
      if i != current && Beyond(items[i], here, dir) {
        var distance := Distance(items[i], here);
        if target.None? || distance < minDistance {
          minDistance := distance;
          target := Some(i);
        }
      }
      i := i + 1;
    }
  }

  // ---------------------------------------------------------------------
  // the key handler

  datatype Action =
    | NoAction
    | Linear(dir: Direction)
    | Geometric(vertical: Vertical)

  /** The `keydown` listener's `switch`; keys from text fields are
      ignored. */
  function KeyAction(tagName: string, key: string): Action
  {
    if tagName == "INPUT" || tagName == "TEXTAREA" then NoAction
    else if key == "]" then Linear(Forward)
    else if key == "[" then Linear(Backward)
    else if key == "j" || key == "J" then Geometric(Down)
    else if key == "k" || key == "K" then Geometric(Up)
    else NoAction
  }

  /** The key sound plays exactly when a navigation ran. */
  function PlaysSound(tagName: string, key: string): bool
  {
    KeyAction(tagName, key) != NoAction
  }

  /** Outside text fields exactly the six keys `[`, `]`, `j`, `J`, `k` and
      `K` navigate (and sound), and both letter cases do the same; inside
      a text field nothing does. */
  lemma KeyBindings(tagName: string, key: string)
    ensures PlaysSound(tagName, key) <==>
      tagName != "INPUT" && tagName != "TEXTAREA" && key in {"[", "]", "j", "J", "k", "K"}
    ensures KeyAction(tagName, "j") == KeyAction(tagName, "J")
    ensures KeyAction(tagName, "k") == KeyAction(tagName, "K")
  {
  }
}
