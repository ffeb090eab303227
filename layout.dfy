/** The pure part of `PianoView`: which white positions carry a black key, the
    key widths and frames the layout pass assigns, and the hit test that turns
    a point into a key. */
module Layout {
  import opened Base
  import opened Geometry
  import opened Keys

  /** `hasBlackKeyAtRight(for:)`: no black key after the third and the seventh
      white key of each octave (E and B). Swift's `%` keeps the sign of a
      negative position, so no negative position is excluded. */
  predicate HasBlackKeyAtRight(p: int) {
    var r := Rem(p, 7);
    r != 2 && r != 6
  }

  /** The in-octave white positions that carry a black key, in order: black
      key `j` of an octave sits right of white position `BLACK_OFFSETS[j]`. */
  const BLACK_OFFSETS: seq<int> := [0, 1, 3, 4, 5]

  /** `PARTIAL_OCTAVE[r]`: the black keys right of the first `r` white keys of an octave. */
  const PARTIAL_OCTAVE: seq<nat> := [0, 1, 2, 2, 3, 4, 5]

  /** For a non-negative position the pattern is the one of an octave: only
      positions 2 and 6 modulo 7 lack a black key, and it repeats every 7 keys. */
  lemma HasBlackKeyAtRightPattern(p: int)
    requires p >= 0
    ensures HasBlackKeyAtRight(p) <==> p % 7 != 2 && p % 7 != 6
    ensures HasBlackKeyAtRight(p + 7) == HasBlackKeyAtRight(p)
  {
  }

  /** The number of black keys `setupBlackKeys` creates for the white
      positions `0 ..< n`: one per position that has a black key at its right. */
  function BlackKeysBefore(n: nat): (c: nat)
    ensures c <= n
  {
    if n == 0 then 0
    else BlackKeysBefore(n - 1) + (if HasBlackKeyAtRight(n - 1) then 1 else 0)
  }

  /** Every full octave contributes five black keys, and a partial one the
      black keys of its first `n % 7` positions. */
  lemma {:induction false} BlackKeysBeforeClosedForm(n: nat)
    ensures BlackKeysBefore(n) == 5 * (n / 7) + PARTIAL_OCTAVE[n % 7]
  {
    if n > 0 {
      BlackKeysBeforeClosedForm(n - 1);
      var q, r := (n - 1) / 7, (n - 1) % 7;
      assert Rem(n - 1, 7) == r;
      if r == 6 {
        DivModSeven(q + 1, 0);
      } else {
        DivModSeven(q, r + 1);
      }
    }
  }

  /** More white positions never mean fewer black keys. */
  lemma {:induction false} BlackKeysBeforeMonotone(m: nat, n: nat)
    requires m <= n
    ensures BlackKeysBefore(m) <= BlackKeysBefore(n)
  {
    if m < n {
      BlackKeysBeforeMonotone(m, n - 1);
    }
  }

  /** The white position right of which black key `j` sits. */
  function BlackPosition(j: nat): nat {
    7 * (j / 5) + BLACK_OFFSETS[j % 5]
  }

  /** Black key `j` sits in octave block `j / 5`, right of a position that
      carries a black key. */
  lemma BlackPositionInBlock(j: nat)
    ensures BlackPosition(j) / 7 == j / 5 && HasBlackKeyAtRight(BlackPosition(j))
  {
    DivModSeven(j / 5, BLACK_OFFSETS[j % 5]);
  }

  /** Black positions strictly increase with the black key's index. */
  lemma BlackPositionIncreasing(i: nat, j: nat)
    requires i < j
    ensures BlackPosition(i) < BlackPosition(j)
  {
    if i / 5 < j / 5 {
      assert 7 * (i / 5) + 7 <= 7 * (j / 5);
    } else {
      assert i % 5 < j % 5;
    }
  }

  /** The black key created for position `p` (it is the `BlackKeysBefore(p)`-th
      one) sits right of `p`: counting black keys and locating them agree. */
  lemma BlackPositionOfCount(p: nat)
    requires HasBlackKeyAtRight(p)
    ensures BlackPosition(BlackKeysBefore(p)) == p
  {
    BlackKeysBeforeClosedForm(p);
    var q, r := p / 7, p % 7;
    assert Rem(p, 7) == r && p == 7 * q + r;
    OffsetOfPartialOctave(r);
    var s := PARTIAL_OCTAVE[r];
    assert BlackKeysBefore(p) == 5 * q + s;
    BlackPositionInOctave(q, s);
  }

  /** Within an octave, the `PARTIAL_OCTAVE[r]`-th black key sits right of
      position `r` whenever `r` carries one. */
  lemma OffsetOfPartialOctave(r: int)
    requires 0 <= r < 7 && r != 2 && r != 6
    ensures PARTIAL_OCTAVE[r] < 5 && BLACK_OFFSETS[PARTIAL_OCTAVE[r]] == r
  {
  }

  lemma BlackPositionInOctave(q: nat, s: int)
    requires 0 <= s < 5
    ensures BlackPosition(5 * q + s) == 7 * q + BLACK_OFFSETS[s]
  {
    DivModFive(q, s);
  }

  /** Conversely, black key `j` is the one created for its own position,
      and that position lies on the keyboard. */
  lemma CountOfBlackPosition(j: nat, n: nat)
    requires j < BlackKeysBefore(n)
    ensures BlackPosition(j) < n && BlackKeysBefore(BlackPosition(j)) == j
  {
    var p := BlackPosition(j);
    BlackKeysBeforeClosedForm(p);
    DivModSeven(j / 5, BLACK_OFFSETS[j % 5]);
    assert BlackKeysBefore(p) == j;
    if p >= n {
      BlackKeysBeforeMonotone(n, p);
    }
  }

  lemma DivModFive(q: int, s: int)
    requires 0 <= s < 5
    ensures (5 * q + s) / 5 == q && (5 * q + s) % 5 == s
  {
  }

  lemma DivModSeven(q: int, s: int)
    requires 0 <= s < 7
    ensures (7 * q + s) / 7 == q && (7 * q + s) % 7 == s
  {
  }

  /** `whiteKeyWidth`: the strip's width shared equally by the white keys. */
  function WhiteKeyWidth(n: nat, width: real): real
    requires n > 0
  {
    width / n as real
  }

  /** The `n` white keys share the width exactly, and a positive strip has
      positive keys. */
  lemma WhiteKeysShareWidth(n: nat, width: real)
    requires n > 0
    ensures WhiteKeyWidth(n, width) * n as real == width
    ensures width > 0.0 ==> WhiteKeyWidth(n, width) > 0.0
  {
  }

  /** `blackKeyWidth`. */
  function BlackKeyWidth(w: real): real {
    w * 0.6
  }

  /** `blackKeyHeight`. */
  function BlackKeyHeight(height: real): real {
    height * 0.6
  }

  /** The frame `updateWhiteKeys` gives white key `i`, for white-key width `w`. */
  function WhiteKeyFrame(w: real, height: real, i: int): Rect {
    Rect(w * i as real, 0.0, w, height)
  }

  /** The frame `updateBlackKeys` gives the black key right of white position
      `p`: centred on the boundary between white keys `p` and `p + 1`, hanging
      from the top edge of the strip. */
  function BlackKeyFrame(w: real, height: real, p: int): Rect {
    Rect(w * (p + 1) as real - BlackKeyWidth(w) / 2.0, height - BlackKeyHeight(height),
         BlackKeyWidth(w), BlackKeyHeight(height))
  }

  /** The black-key frames as the layout pass leaves them for `n` white keys. */
  ghost predicate BlackFramesLaidOut(n: nat, width: real, height: real, frames: seq<Rect>) {
    |frames| == BlackKeysBefore(n) &&
    (n > 0 ==> forall j :: 0 <= j < |frames| ==>
        frames[j] == BlackKeyFrame(WhiteKeyWidth(n, width), height, BlackPosition(j)))
  }

  /** `Int(point.x / self.whiteKeyWidth)`. With no white keys the width is
      `width / 0`, an infinity, so the quotient is zero for any finite `x`. */
  function Column(n: nat, width: real, x: real): int
    requires width != 0.0
  {
    if n == 0 then 0 else Trunc(x / WhiteKeyWidth(n, width))
  }

  /** The first of the `count` black keys from index `from` on whose frame
      contains `p`, skipping indices outside `frames`. */
  function FirstBlackHit(frames: seq<Rect>, p: Point, from: int, count: nat): (r: Option<nat>)
    ensures r.Some? ==> from <= r.value < from + count && r.value < |frames| && frames[r.value].Contains(p)
    ensures r.Some? ==> forall j :: from <= j < r.value && 0 <= j < |frames| ==> !frames[j].Contains(p)
    ensures r.None? ==> forall j :: from <= j < from + count && 0 <= j < |frames| ==> !frames[j].Contains(p)
    decreases count
  {
    if count == 0 then None
    else if 0 <= from < |frames| && frames[from].Contains(p) then Some(from)
    else FirstBlackHit(frames, p, from + 1, count - 1)
  }

  /** `getKeyIndex(at:)`: no key when the truncated column is not a white
      key's index; otherwise the first of the five black keys of that
      column's octave whose frame contains the point, else the white key. */
  function KeyAt(n: nat, width: real, frames: seq<Rect>, p: Point): (r: Option<KeyRef>)
    requires width != 0.0
    ensures r.None? <==> !(0 <= Column(n, width, p.x) < n)
    ensures r.Some? && r.value.keyType == White ==> r.value.index == Column(n, width, p.x)
    ensures r.Some? && r.value.keyType == Black ==>
      0 <= r.value.index < |frames| && frames[r.value.index].Contains(p) &&
      r.value.index / 5 == Column(n, width, p.x) / 7
  {
    var c := Column(n, width, p.x);
    if !(0 <= c < n) then None
    else
      match FirstBlackHit(frames, p, c / 7 * 5, 5)
      case Some(j) => Some(KeyRef(Black, j))
      case None => Some(KeyRef(White, c))
  }

  /** `getIndices(points:)`: the indices of type `t` that the points resolve to. */
  function HitIndices(n: nat, width: real, frames: seq<Rect>, points: seq<Point>, t: KeyType): (s: set<int>)
    requires width != 0.0
    ensures forall i :: i in s ==> 0 <= i < (if t == White then n else |frames|)
  {
    if points == [] then {}
    else
      var last := KeyAt(n, width, frames, points[|points| - 1]);
      HitIndices(n, width, frames, points[..|points| - 1], t) +
        (if last.Some? && last.value.keyType == t then {last.value.index} else {})
  }

  /** An index is resolved exactly when some point resolves to it: many
      points on one key give one index, and no index comes from nowhere. */
  lemma {:induction false} HitIndicesMembers(n: nat, width: real, frames: seq<Rect>, points: seq<Point>, t: KeyType, i: int)
    requires width != 0.0
    ensures i in HitIndices(n, width, frames, points, t) <==>
            exists k :: 0 <= k < |points| && KeyAt(n, width, frames, points[k]) == Some(KeyRef(t, i))
  {
    if points != [] {
      var init := points[..|points| - 1];
      HitIndicesMembers(n, width, frames, init, t, i);
      if exists k :: 0 <= k < |points| && KeyAt(n, width, frames, points[k]) == Some(KeyRef(t, i)) {
        var k :| 0 <= k < |points| && KeyAt(n, width, frames, points[k]) == Some(KeyRef(t, i));
        if k < |points| - 1 {
          assert init[k] == points[k];
        }
      }
      if exists k :: 0 <= k < |init| && KeyAt(n, width, frames, init[k]) == Some(KeyRef(t, i)) {
        var k :| 0 <= k < |init| && KeyAt(n, width, frames, init[k]) == Some(KeyRef(t, i));
        assert points[k] == init[k];
      }
    }
  }

  /** A point that repeats an earlier one adds no index: `getIndices` yields
      a set, so a touch twice on one key presses it once. */
  lemma HitIndicesRepeatedPoint(n: nat, width: real, frames: seq<Rect>, points: seq<Point>, t: KeyType, k: int)
    requires width != 0.0 && 0 <= k < |points|
    ensures HitIndices(n, width, frames, points + [points[k]], t) == HitIndices(n, width, frames, points, t)
  {
    var q := points[k];
    assert (points + [q])[..|points|] == points;
    var last := KeyAt(n, width, frames, q);
    if last.Some? && last.value.keyType == t {
      HitIndicesMembers(n, width, frames, points, t, last.value.index);
    }
  }

  /** Dividing by a positive width keeps the order of bounds, both ways. */
  lemma ScaledBounds(x: real, w: real, lo: real, hi: real)
    requires w > 0.0
    ensures lo * w <= x < hi * w <==> lo <= x / w < hi
  {
    var u := x / w;
    assert x == u * w;
    MulMonotone(lo, u, w);
    MulMonotone(u, lo, w);
    MulMonotone(hi, u, w);
    MulMonotone(u, hi, w);
  }

  lemma MulMonotone(a: real, b: real, w: real)
    requires w > 0.0
    ensures a <= b <==> a * w <= b * w
  {
    assert b * w - a * w == (b - a) * w;
  }

  /** A point on the black key right of position `pos` lies between 0.7 and
      1.3 white-key widths past the left edge of white key `pos`. */
  lemma BlackFrameSpan(w: real, height: real, pos: nat, p: Point)
    requires w > 0.0 && BlackKeyFrame(w, height, pos).Contains(p)
    ensures pos as real + 0.7 <= p.x / w < pos as real + 1.3
  {
    var f := BlackKeyFrame(w, height, pos);
    assert f.MinX() == w * (pos + 1) as real - w * 0.3;
    assert f.MaxX() == w * (pos + 1) as real + w * 0.3;
    assert (pos as real + 0.7) * w == w * (pos + 1) as real - w * 0.3;
    assert (pos as real + 1.3) * w == w * (pos + 1) as real + w * 0.3;
    ScaledBounds(p.x, w, pos as real + 0.7, pos as real + 1.3);
  }

  /** Two different black keys never share a point. */
  lemma BlackFramesDisjoint(w: real, height: real, i: nat, j: nat, p: Point)
    requires w > 0.0 && i != j
    ensures !(BlackKeyFrame(w, height, BlackPosition(i)).Contains(p) &&
              BlackKeyFrame(w, height, BlackPosition(j)).Contains(p))
  {
    if BlackKeyFrame(w, height, BlackPosition(i)).Contains(p) &&
       BlackKeyFrame(w, height, BlackPosition(j)).Contains(p) {
      BlackFrameSpan(w, height, BlackPosition(i), p);
      BlackFrameSpan(w, height, BlackPosition(j), p);
      if i < j {
        BlackPositionIncreasing(i, j);
      } else {
        BlackPositionIncreasing(j, i);
      }
    }
  }

  /** The truncated column of a point on a black key is one of the two white
      keys the black key straddles, and both lie in the black key's octave, so
      the five candidates `getKeyIndex` searches always include it. */
  lemma BlackKeyColumn(n: nat, width: real, height: real, j: nat, p: Point)
    requires n > 0 && width > 0.0
    requires BlackKeyFrame(WhiteKeyWidth(n, width), height, BlackPosition(j)).Contains(p)
    ensures var c := Column(n, width, p.x);
      (c == BlackPosition(j) || c == BlackPosition(j) + 1) && c / 7 == j / 5
  {
    var w := WhiteKeyWidth(n, width);
    WhiteKeysShareWidth(n, width);
    var pos := BlackPosition(j);
    BlackFrameSpan(w, height, pos, p);
    var c := Column(n, width, p.x);
    assert c == Trunc(p.x / w);
    assert c == pos || c == pos + 1;
    var q, off := j / 5, BLACK_OFFSETS[j % 5];
    assert pos == 7 * q + off && off <= 5;
    DivModSeven(q, off);
    DivModSeven(q, off + 1);
  }

  /** Candidate completeness and black-over-white precedence: on a laid-out
      keyboard, a point on black key `j` resolves to that black key whenever
      its column is on the keyboard, although it also lies over a white key. */
  lemma BlackKeyWins(n: nat, width: real, height: real, frames: seq<Rect>, j: nat, p: Point)
    requires n > 0 && width > 0.0
    requires BlackFramesLaidOut(n, width, height, frames)
    requires j < |frames| && frames[j].Contains(p)
    ensures KeyAt(n, width, frames, p) ==
            if 0 <= Column(n, width, p.x) < n then Some(KeyRef(Black, j)) else None
  {
    var w := WhiteKeyWidth(n, width);
    WhiteKeysShareWidth(n, width);
    var c := Column(n, width, p.x);
    assert frames[j] == BlackKeyFrame(w, height, BlackPosition(j));
    BlackKeyColumn(n, width, height, j, p);
    if 0 <= c < n {
      var first := c / 7 * 5;
      assert first == j / 5 * 5;
      assert first <= j < first + 5;
      var hit := FirstBlackHit(frames, p, first, 5);
      assert hit.Some?;
      var k := hit.value;
      assert frames[k] == BlackKeyFrame(w, height, BlackPosition(k));
      if k != j {
        BlackFramesDisjoint(w, height, k, j, p);
      }
      assert KeyAt(n, width, frames, p) == Some(KeyRef(Black, k));
    }
  }

  /** The white key beneath: whatever black key a point resolves to on a
      laid-out keyboard, the point also lies on the white key of its column. */
  lemma BlackKeyCoversWhiteKey(n: nat, width: real, height: real, frames: seq<Rect>, j: int, p: Point)
    requires n > 0 && width > 0.0 && height > 0.0
    requires BlackFramesLaidOut(n, width, height, frames)
    requires KeyAt(n, width, frames, p) == Some(KeyRef(Black, j))
    ensures WhiteKeyFrame(WhiteKeyWidth(n, width), height, Column(n, width, p.x)).Contains(p)
  {
    var w := WhiteKeyWidth(n, width);
    WhiteKeysShareWidth(n, width);
    assert 0 <= j < |frames| && frames[j].Contains(p);
    var pos := BlackPosition(j);
    assert frames[j] == BlackKeyFrame(w, height, pos);
    BlackFrameOverWhite(w, height, pos, p);
    assert Column(n, width, p.x) == Trunc(p.x / w);
  }

  lemma BlackFrameOverWhite(w: real, height: real, pos: nat, p: Point)
    requires w > 0.0 && height > 0.0
    requires BlackKeyFrame(w, height, pos).Contains(p)
    ensures WhiteKeyFrame(w, height, Trunc(p.x / w)).Contains(p)
  {
    var c := Trunc(p.x / w);
    BlackFrameSpan(w, height, pos, p);
    ContainsNonNegative(BlackKeyFrame(w, height, pos), p);
    ScaledBounds(p.x, w, c as real, c as real + 1.0);
    assert (c as real + 1.0) * w == w * c as real + w;
    ContainsNonNegative(WhiteKeyFrame(w, height, c), p);
  }

  /** The white frames tile the strip: `n` of them fill its width exactly,
      a point lies on some white key exactly when it lies inside the strip,
      and then only on the key of its column. */
  lemma WhiteKeysTile(n: nat, width: real, height: real, p: Point)
    requires n > 0 && width > 0.0 && height > 0.0
    ensures (exists i :: 0 <= i < n && WhiteKeyFrame(WhiteKeyWidth(n, width), height, i).Contains(p)) <==>
            0.0 <= p.x < width && 0.0 <= p.y < height
    ensures forall i :: 0 <= i < n && WhiteKeyFrame(WhiteKeyWidth(n, width), height, i).Contains(p) ==>
            i == Column(n, width, p.x)
  {
    forall i | 0 <= i < n && WhiteKeyFrame(WhiteKeyWidth(n, width), height, i).Contains(p)
      ensures i == Column(n, width, p.x) && 0.0 <= p.x < width && 0.0 <= p.y < height
    {
      WhiteFrameInStrip(n, width, height, i, p);
    }
    if 0.0 <= p.x < width && 0.0 <= p.y < height {
      StripPointOnColumn(n, width, height, p);
    }
  }

  /** A point on white key `i` is inside the strip, in column `i`. */
  lemma WhiteFrameInStrip(n: nat, width: real, height: real, i: int, p: Point)
    requires n > 0 && width > 0.0 && height > 0.0 && 0 <= i < n
    requires WhiteKeyFrame(WhiteKeyWidth(n, width), height, i).Contains(p)
    ensures i == Column(n, width, p.x) && 0.0 <= p.x < width && 0.0 <= p.y < height
  {
    var w := WhiteKeyWidth(n, width);
    WhiteKeysShareWidth(n, width);
    ContainsNonNegative(WhiteKeyFrame(w, height, i), p);
    SlotInStrip(p.x, w, i, n, width);
    assert Column(n, width, p.x) == Trunc(p.x / w);
  }

  /** A coordinate in slot `i` of width `w` truncates to `i`. */
  lemma TruncInSlot(x: real, w: real, i: int)
    requires w > 0.0 && i >= 0 && w * i as real <= x < w * i as real + w
    ensures Trunc(x / w) == i
  {
    assert (i as real + 1.0) * w == w * i as real + w;
    ScaledBounds(x, w, i as real, i as real + 1.0);
  }

  /** A coordinate in slot `i` of `n` slots of width `w` lies within the
      `n` slots and truncates to `i`. */
  lemma SlotInStrip(x: real, w: real, i: int, n: int, width: real)
    requires w > 0.0 && 0 <= i < n && w * n as real == width
    requires w * i as real <= x < w * i as real + w
    ensures 0.0 <= x < width && Trunc(x / w) == i
  {
    TruncInSlot(x, w, i);
    MulMonotone(0.0, i as real, w);
    MulMonotone(i as real + 1.0, n as real, w);
    assert (i as real + 1.0) * w == w * i as real + w;
  }

  /** A point inside the strip lies on the white key of its column. */
  lemma StripPointOnColumn(n: nat, width: real, height: real, p: Point)
    requires n > 0 && width > 0.0 && height > 0.0
    requires 0.0 <= p.x < width && 0.0 <= p.y < height
    ensures 0 <= Column(n, width, p.x) < n
    ensures WhiteKeyFrame(WhiteKeyWidth(n, width), height, Column(n, width, p.x)).Contains(p)
  {
    var w := WhiteKeyWidth(n, width);
    var c := Column(n, width, p.x);
    ScaledBounds(p.x, w, 0.0, n as real);
    ScaledBounds(p.x, w, c as real, c as real + 1.0);
    assert (c as real + 1.0) * w == w * c as real + w;
    ContainsNonNegative(WhiteKeyFrame(w, height, c), p);
  }

  /** `Int()` truncates toward zero, so a point up to one key width left of
      the strip still resolves to the first white key, on whose frame it does
      not lie. */
  lemma LeftOfStripResolvesToFirstKey(n: nat, width: real, height: real, frames: seq<Rect>, p: Point)
    requires n > 0 && width > 0.0
    requires BlackFramesLaidOut(n, width, height, frames)
    requires -WhiteKeyWidth(n, width) < p.x < 0.0
    ensures KeyAt(n, width, frames, p) == Some(KeyRef(White, 0))
    ensures forall i :: 0 <= i < n ==> !WhiteKeyFrame(WhiteKeyWidth(n, width), height, i).Contains(p)
  {
    var w := WhiteKeyWidth(n, width);
    ScaledBounds(p.x, w, -1.0, 0.0);
    assert Column(n, width, p.x) == 0;
    var hit := FirstBlackHit(frames, p, 0, 5);
    if hit.Some? {
      BlackFrameSpan(w, height, BlackPosition(hit.value), p);
      assert false;
    }
    forall i | 0 <= i < n
      ensures !WhiteKeyFrame(w, height, i).Contains(p)
    {
      assert 0.0 <= w * i as real;
    }
  }
}
