/** `PianoView`: the strip of keys, its layout pass, its hit test and the two
    sets of pressed indices that the touch handlers maintain. */
module View {
  import opened Base
  import opened Geometry
  import opened Keys
  import opened Layout

  /** An `NSTouch` as the handlers use it: where it is now and where it was at
      the previous event, both in the view's coordinates. */
  datatype Touch = Touch(location: Point, previousLocation: Point)

  /** `touches.map { $0.location(in: self) }`: where each touch is now. */
  function Locations(touches: seq<Touch>): seq<Point> {
    seq(|touches|, k requires 0 <= k < |touches| => touches[k].location)
  }

  /** `touches.map { $0.previousLocation(in: self) }`: where each touch was. */
  function PreviousLocations(touches: seq<Touch>): seq<Point> {
    seq(|touches|, k requires 0 <= k < |touches| => touches[k].previousLocation)
  }

  /** The layer frames of `keys`, in order. */
  function FramesOf(keys: seq<PianoKey>): seq<Rect>
    reads keys
  {
    seq(|keys|, j requires 0 <= j < |keys| reads keys => keys[j].frame)
  }

  ghost predicate Distinct(keys: seq<PianoKey>) {
    forall i, j :: 0 <= i < j < |keys| ==> keys[i] != keys[j]
  }

  /** The state a key at `index` shows for the pressed set `down`. */
  function StateFor(index: int, down: set<int>): State {
    if index in down then Down else Up
  }

  /** What `touchesMoved` does to a pressed set `down`, given the indices the
      touches resolve to now and before: every key under a touch now is
      pressed, a key a touch left is released unless a touch is still on it,
      and every other key keeps its state. */
  lemma MovedDownSet(down: set<int>, now: set<int>, before: set<int>, i: int)
    ensures var after := (down + now) - (before - now);
      (i in now ==> i in after) &&
      (i in before && i !in now ==> i !in after) &&
      (i !in now && i !in before ==> (i in after <==> i in down))
  {
  }

  /** One loop of `updateKeysState`: key `i` of `keys` is set down exactly
      when `i` is in `down`, through its observer, and nothing else of the
      keys changes. */
  method ShowDownSet(keys: seq<PianoKey>, down: set<int>)
    requires Distinct(keys)
    modifies keys
    ensures forall i :: 0 <= i < |keys| ==> keys[i].state == StateFor(i, down) && keys[i].Valid()
    ensures forall i :: 0 <= i < |keys| ==> keys[i].frame == old(keys[i].frame) && keys[i].octave == old(keys[i].octave)
  {
    for index := 0 to |keys|
      invariant forall i :: 0 <= i < index ==> keys[i].state == StateFor(i, down) && keys[i].Valid()
      invariant forall i :: 0 <= i < |keys| ==> keys[i].frame == old(keys[i].frame) && keys[i].octave == old(keys[i].octave)
    {
      keys[index].SetState(StateFor(index, down));
    }
  }

  class PianoView {
    var numberOfWhiteKeys: int
    /** `frame.width` and `frame.height`. */
    var width: real
    var height: real
    var whiteKeys: seq<PianoKey>
    var blackKeys: seq<PianoKey>
    var whiteKeyDownIndices: set<int>
    var blackKeyDownIndices: set<int>

    /** The view's invariant: the key arrays are the ones set up for
        `numberOfWhiteKeys`, every key is distinct, of the array's type and
        painted for its state, and only existing keys are pressed. */
    ghost predicate Valid()
      reads this, whiteKeys, blackKeys
    {
      numberOfWhiteKeys >= 0 &&
      |whiteKeys| == numberOfWhiteKeys &&
      |blackKeys| == BlackKeysBefore(numberOfWhiteKeys) &&
      Distinct(whiteKeys) && Distinct(blackKeys) &&
      (forall i :: 0 <= i < |whiteKeys| ==> whiteKeys[i].keyType == White && whiteKeys[i].Valid()) &&
      (forall j :: 0 <= j < |blackKeys| ==> blackKeys[j].keyType == Black && blackKeys[j].Valid()) &&
      (forall i :: i in whiteKeyDownIndices ==> 0 <= i < |whiteKeys|) &&
      (forall j :: j in blackKeyDownIndices ==> 0 <= j < |blackKeys|)
    }

    /** Every key's frame is the one the layout pass computes for the current
        width, height and number of white keys. */
    ghost predicate LaidOut()
      reads this, whiteKeys, blackKeys
      requires Valid()
    {
      numberOfWhiteKeys > 0 ==>
        (forall i :: 0 <= i < |whiteKeys| ==>
           whiteKeys[i].frame == WhiteKeyFrame(WhiteKeyWidth(numberOfWhiteKeys, width), height, i)) &&
        BlackFramesLaidOut(numberOfWhiteKeys, width, height, FramesOf(blackKeys))
    }

    /** A step that keeps the key arrays, the dimensions and every frame keeps
        the keys laid out: the layout depends on nothing else. */
    twostate lemma LaidOutKept()
      requires old(Valid()) && Valid()
      requires numberOfWhiteKeys == old(numberOfWhiteKeys) && width == old(width) && height == old(height)
      requires whiteKeys == old(whiteKeys) && blackKeys == old(blackKeys)
      requires FramesOf(whiteKeys) == old(FramesOf(whiteKeys)) && FramesOf(blackKeys) == old(FramesOf(blackKeys))
      ensures old(LaidOut()) ==> LaidOut()
    {
      if old(LaidOut()) && numberOfWhiteKeys > 0 {
        forall i | 0 <= i < |whiteKeys|
          ensures whiteKeys[i].frame == WhiteKeyFrame(WhiteKeyWidth(numberOfWhiteKeys, width), height, i)
        {
          assert whiteKeys[i].frame == FramesOf(whiteKeys)[i];
          assert old(whiteKeys[i].frame) == old(FramesOf(whiteKeys))[i];
        }
      }
    }

    /** Every key shows whether its index is in the pressed set of its type. */
    ghost predicate ShowsDownSets()
      reads this, whiteKeys, blackKeys
    {
      (forall i :: 0 <= i < |whiteKeys| ==> whiteKeys[i].state == StateFor(i, whiteKeyDownIndices)) &&
      (forall j :: 0 <= j < |blackKeys| ==> blackKeys[j].state == StateFor(j, blackKeyDownIndices))
    }

    /** `init(numberOfWhiteKeys:frame:)`: one white key per position, one
        black key per position with a black key at its right, all up, laid
        out for the frame, nothing pressed. A negative count traps in the
        range `0..<numberOfWhiteKeys`. */
    constructor (numberOfWhiteKeys: int, width: real, height: real)
      requires numberOfWhiteKeys >= 0
      ensures Valid() && LaidOut() && ShowsDownSets()
      ensures this.numberOfWhiteKeys == numberOfWhiteKeys && this.width == width && this.height == height
      ensures whiteKeyDownIndices == {} && blackKeyDownIndices == {}
      ensures forall i :: 0 <= i < |whiteKeys| ==> fresh(whiteKeys[i]) && whiteKeys[i].octave == 0
      ensures forall j :: 0 <= j < |blackKeys| ==> fresh(blackKeys[j]) && blackKeys[j].octave == 0
    {
      this.numberOfWhiteKeys := numberOfWhiteKeys;
      this.width := width;
      this.height := height;
      whiteKeys := [];
      blackKeys := [];
      whiteKeyDownIndices := {};
      blackKeyDownIndices := {};
      new;
      SetupWhiteKeys();
      SetupBlackKeys();
      assert Valid();
      assert ShowsDownSets();
    }

    /** `setupWhiteKeys`: append a fresh white key per position, then lay
        them out. */
    method SetupWhiteKeys()
      requires numberOfWhiteKeys >= 0 && whiteKeys == []
      modifies this`whiteKeys
      ensures |whiteKeys| == numberOfWhiteKeys && Distinct(whiteKeys)
      ensures forall i :: 0 <= i < |whiteKeys| ==>
        fresh(whiteKeys[i]) && whiteKeys[i].keyType == White && whiteKeys[i].state == Up &&
        whiteKeys[i].Valid() && whiteKeys[i].octave == 0
      ensures numberOfWhiteKeys > 0 ==> forall i :: 0 <= i < |whiteKeys| ==>
        whiteKeys[i].frame == WhiteKeyFrame(WhiteKeyWidth(numberOfWhiteKeys, width), height, i)
    {
      for k := 0 to numberOfWhiteKeys
        invariant |whiteKeys| == k && Distinct(whiteKeys)
        invariant forall i :: 0 <= i < k ==>
          fresh(whiteKeys[i]) && whiteKeys[i].keyType == White && whiteKeys[i].state == Up &&
          whiteKeys[i].Valid() && whiteKeys[i].octave == 0
      {
        var key := new PianoKey(White);
        whiteKeys := whiteKeys + [key];
      }
      UpdateWhiteKeys();
    }

    /** `setupBlackKeys`: append a fresh black key for every position with a
        black key at its right, then lay them out. */
    method SetupBlackKeys()
      requires numberOfWhiteKeys >= 0 && blackKeys == []
      modifies this`blackKeys
      ensures |blackKeys| == BlackKeysBefore(numberOfWhiteKeys) && Distinct(blackKeys)
      ensures forall j :: 0 <= j < |blackKeys| ==>
        fresh(blackKeys[j]) && blackKeys[j].keyType == Black && blackKeys[j].state == Up &&
        blackKeys[j].Valid() && blackKeys[j].octave == 0
      ensures numberOfWhiteKeys > 0 ==> BlackFramesLaidOut(numberOfWhiteKeys, width, height, FramesOf(blackKeys))
    {
      for index := 0 to numberOfWhiteKeys
        invariant |blackKeys| == BlackKeysBefore(index) && Distinct(blackKeys)
        invariant forall j :: 0 <= j < |blackKeys| ==>
          fresh(blackKeys[j]) && blackKeys[j].keyType == Black && blackKeys[j].state == Up &&
          blackKeys[j].Valid() && blackKeys[j].octave == 0
      {
        if !HasBlackKeyAtRight(index) {
          continue;
        }
        var key := new PianoKey(Black);
        blackKeys := blackKeys + [key];
      }
      UpdateBlackKeys();
    }

    /** `updateWhiteKeys`: white key `i` gets the frame of the `i`-th slot. */
    method UpdateWhiteKeys()
      requires |whiteKeys| == numberOfWhiteKeys && Distinct(whiteKeys)
      modifies whiteKeys
      ensures numberOfWhiteKeys > 0 ==> forall i :: 0 <= i < |whiteKeys| ==>
        whiteKeys[i].frame == WhiteKeyFrame(WhiteKeyWidth(numberOfWhiteKeys, width), height, i)
      ensures forall i :: 0 <= i < |whiteKeys| ==>
        whiteKeys[i].state == old(whiteKeys[i].state) && whiteKeys[i].background == old(whiteKeys[i].background) &&
        whiteKeys[i].octave == old(whiteKeys[i].octave)
    {
      for index := 0 to |whiteKeys|
        invariant forall i :: 0 <= i < index ==>
          whiteKeys[i].frame == WhiteKeyFrame(WhiteKeyWidth(numberOfWhiteKeys, width), height, i)
        invariant forall i :: 0 <= i < |whiteKeys| ==>
          whiteKeys[i].state == old(whiteKeys[i].state) && whiteKeys[i].background == old(whiteKeys[i].background) &&
          whiteKeys[i].octave == old(whiteKeys[i].octave)
      {
        var w := WhiteKeyWidth(numberOfWhiteKeys, width);
        whiteKeys[index].frame := WhiteKeyFrame(w, height, index);
      }
    }

    /** `updateBlackKeys`: walk the white positions with a running black-key
        counter and give the black key it designates the frame right of the
        position. The counter stays inside `blackKeys` because the array
        holds exactly one key per position with a black key at its right. */
    method UpdateBlackKeys()
      requires numberOfWhiteKeys >= 0 && |blackKeys| == BlackKeysBefore(numberOfWhiteKeys) && Distinct(blackKeys)
      modifies blackKeys
      ensures numberOfWhiteKeys > 0 ==> BlackFramesLaidOut(numberOfWhiteKeys, width, height, FramesOf(blackKeys))
      ensures forall j :: 0 <= j < |blackKeys| ==>
        blackKeys[j].state == old(blackKeys[j].state) && blackKeys[j].background == old(blackKeys[j].background) &&
        blackKeys[j].octave == old(blackKeys[j].octave)
    {
      var currentBlackKeyIndex := 0;
      for index := 0 to numberOfWhiteKeys
        invariant currentBlackKeyIndex == BlackKeysBefore(index) <= |blackKeys|
        invariant forall j :: 0 <= j < currentBlackKeyIndex ==>
          blackKeys[j].frame == BlackKeyFrame(WhiteKeyWidth(numberOfWhiteKeys, width), height, BlackPosition(j))
        invariant forall j :: 0 <= j < |blackKeys| ==>
          blackKeys[j].state == old(blackKeys[j].state) && blackKeys[j].background == old(blackKeys[j].background) &&
          blackKeys[j].octave == old(blackKeys[j].octave)
      {
        if !HasBlackKeyAtRight(index) {
          continue;
        }
        assert BlackKeysBefore(index + 1) == currentBlackKeyIndex + 1;
        BlackKeysBeforeMonotone(index + 1, numberOfWhiteKeys);
        BlackPositionOfCount(index);
        var w := WhiteKeyWidth(numberOfWhiteKeys, width);
        var key := blackKeys[currentBlackKeyIndex];
        key.frame := BlackKeyFrame(w, height, index);
        currentBlackKeyIndex := currentBlackKeyIndex + 1;
      }
      assert currentBlackKeyIndex == |blackKeys|;
    }

    /** `layout()`: lay every key out again for the current frame. */
    method Layout()
      requires Valid()
      modifies whiteKeys, blackKeys
      ensures Valid() && LaidOut()
      ensures forall i :: 0 <= i < |whiteKeys| ==>
        whiteKeys[i].state == old(whiteKeys[i].state) && whiteKeys[i].octave == old(whiteKeys[i].octave)
      ensures forall j :: 0 <= j < |blackKeys| ==>
        blackKeys[j].state == old(blackKeys[j].state) && blackKeys[j].octave == old(blackKeys[j].octave)
    {
      UpdateWhiteKeys();
      UpdateBlackKeys();
    }

    /** `getKeyIndex(at:)`: the truncated column; no key when it is not a
        white key's index; otherwise the first of the five black keys of its
        octave whose frame contains the point, else the white key. */
    method GetKeyIndex(p: Point) returns (r: Option<KeyRef>)
      requires numberOfWhiteKeys == |whiteKeys| && width != 0.0
      ensures r == KeyAt(numberOfWhiteKeys, width, FramesOf(blackKeys), p)
    {
      var whiteIndex := Column(numberOfWhiteKeys, width, p.x);
      if !(0 <= whiteIndex < |whiteKeys|) {
        return None;
      }
      var first := whiteIndex / 7 * 5;
      for index := first to first + 5
        invariant FirstBlackHit(FramesOf(blackKeys), p, first, 5) ==
                  FirstBlackHit(FramesOf(blackKeys), p, index, first + 5 - index)
      {
        if !(0 <= index < |blackKeys|) {
          continue;
        }
        if blackKeys[index].frame.Contains(p) {
          return Some(KeyRef(Black, index));
        }
      }
      return Some(KeyRef(White, whiteIndex));
    }

    /** `getIndices(points:)`: the white and the black indices the points
        resolve to, each index once. */
    method GetIndices(points: seq<Point>) returns (white: set<int>, black: set<int>)
      requires numberOfWhiteKeys == |whiteKeys| && width != 0.0
      ensures white == HitIndices(numberOfWhiteKeys, width, FramesOf(blackKeys), points, White)
      ensures black == HitIndices(numberOfWhiteKeys, width, FramesOf(blackKeys), points, Black)
    {
      black := {};
      white := {};
      for k := 0 to |points|
        invariant white == HitIndices(numberOfWhiteKeys, width, FramesOf(blackKeys), points[..k], White)
        invariant black == HitIndices(numberOfWhiteKeys, width, FramesOf(blackKeys), points[..k], Black)
      {
        assert points[..k + 1][..k] == points[..k];
        var typeAndIndex := GetKeyIndex(points[k]);
        match typeAndIndex {
          case Some(KeyRef(Black, i)) => black := black + {i};
          case Some(KeyRef(White, i)) => white := white + {i};
          case None =>
        }
      }
      assert points[..|points|] == points;
    }

    /** The indices of type `t` that `points` resolve to on the current keys. */
    ghost function Resolved(points: seq<Point>, t: KeyType): set<int>
      reads this, blackKeys
      requires numberOfWhiteKeys >= 0 && width != 0.0
    {
      HitIndices(numberOfWhiteKeys, width, FramesOf(blackKeys), points, t)
    }

    /** `updateKeysState`: every key is set down exactly when its index is in
        the pressed set of its type; each assignment runs the key's observer. */
    method UpdateKeysState()
      requires Valid()
      modifies whiteKeys, blackKeys
      ensures Valid() && ShowsDownSets()
      ensures FramesOf(whiteKeys) == old(FramesOf(whiteKeys)) && FramesOf(blackKeys) == old(FramesOf(blackKeys))
      ensures forall i :: 0 <= i < |whiteKeys| ==> whiteKeys[i].octave == old(whiteKeys[i].octave)
      ensures forall j :: 0 <= j < |blackKeys| ==> blackKeys[j].octave == old(blackKeys[j].octave)
    {
      assert forall i :: 0 <= i < |whiteKeys| ==> whiteKeys[i] !in blackKeys;
      ShowDownSet(whiteKeys, whiteKeyDownIndices);
      ShowDownSet(blackKeys, blackKeyDownIndices);
    }

    /** `touchesBegan(with:)`: press every key a touch is on. */
    method TouchesBegan(touches: seq<Touch>)
      requires Valid() && width != 0.0
      modifies this, whiteKeys, blackKeys
      ensures Valid() && ShowsDownSets()
      ensures whiteKeys == old(whiteKeys) && blackKeys == old(blackKeys)
      ensures forall i :: 0 <= i < |whiteKeys| ==> whiteKeys[i].octave == old(whiteKeys[i].octave)
      ensures forall j :: 0 <= j < |blackKeys| ==> blackKeys[j].octave == old(blackKeys[j].octave)
      ensures numberOfWhiteKeys == old(numberOfWhiteKeys) && width == old(width) && height == old(height)
      ensures FramesOf(whiteKeys) == old(FramesOf(whiteKeys)) && FramesOf(blackKeys) == old(FramesOf(blackKeys))
      ensures old(LaidOut()) ==> LaidOut()
      ensures whiteKeyDownIndices == old(whiteKeyDownIndices) + old(Resolved(Locations(touches), White))
      ensures blackKeyDownIndices == old(blackKeyDownIndices) + old(Resolved(Locations(touches), Black))
    {
      var points := Locations(touches);
      var whiteIndices, blackIndices := GetIndices(points);
      whiteKeyDownIndices := whiteKeyDownIndices + whiteIndices;
      blackKeyDownIndices := blackKeyDownIndices + blackIndices;
      UpdateKeysState();
      LaidOutKept();
    }

    /** `touchesMoved(with:)`: press the keys under the touches now, then
        release the keys the touches were on before unless a touch is still
        on them. */
    method TouchesMoved(touches: seq<Touch>)
      requires Valid() && width != 0.0
      modifies this, whiteKeys, blackKeys
      ensures Valid() && ShowsDownSets()
      ensures whiteKeys == old(whiteKeys) && blackKeys == old(blackKeys)
      ensures forall i :: 0 <= i < |whiteKeys| ==> whiteKeys[i].octave == old(whiteKeys[i].octave)
      ensures forall j :: 0 <= j < |blackKeys| ==> blackKeys[j].octave == old(blackKeys[j].octave)
      ensures numberOfWhiteKeys == old(numberOfWhiteKeys) && width == old(width) && height == old(height)
      ensures FramesOf(whiteKeys) == old(FramesOf(whiteKeys)) && FramesOf(blackKeys) == old(FramesOf(blackKeys))
      ensures old(LaidOut()) ==> LaidOut()
      ensures var now, before := old(Resolved(Locations(touches), White)), old(Resolved(PreviousLocations(touches), White));
        whiteKeyDownIndices == (old(whiteKeyDownIndices) + now) - (before - now)
      ensures var now, before := old(Resolved(Locations(touches), Black)), old(Resolved(PreviousLocations(touches), Black));
        blackKeyDownIndices == (old(blackKeyDownIndices) + now) - (before - now)
    {
      var points := Locations(touches);
      var whiteIndices, blackIndices := GetIndices(points);
      var previousPoints := PreviousLocations(touches);
      var whiteDown := whiteKeyDownIndices + whiteIndices;
      var blackDown := blackKeyDownIndices + blackIndices;
      var previousWhiteIndices, previousBlackIndices := GetIndices(previousPoints);
      whiteDown := whiteDown - (previousWhiteIndices - whiteIndices);
      blackDown := blackDown - (previousBlackIndices - blackIndices);
      whiteKeyDownIndices, blackKeyDownIndices := whiteDown, blackDown;
      UpdateKeysState();
      LaidOutKept();
    }

    /** `touchesEnded(with:)`: release every key a touch is on. */
    method TouchesEnded(touches: seq<Touch>)
      requires Valid() && width != 0.0
      modifies this, whiteKeys, blackKeys
      ensures Valid() && ShowsDownSets()
      ensures whiteKeys == old(whiteKeys) && blackKeys == old(blackKeys)
      ensures forall i :: 0 <= i < |whiteKeys| ==> whiteKeys[i].octave == old(whiteKeys[i].octave)
      ensures forall j :: 0 <= j < |blackKeys| ==> blackKeys[j].octave == old(blackKeys[j].octave)
      ensures numberOfWhiteKeys == old(numberOfWhiteKeys) && width == old(width) && height == old(height)
      ensures FramesOf(whiteKeys) == old(FramesOf(whiteKeys)) && FramesOf(blackKeys) == old(FramesOf(blackKeys))
      ensures old(LaidOut()) ==> LaidOut()
      ensures whiteKeyDownIndices == old(whiteKeyDownIndices) - old(Resolved(Locations(touches), White))
      ensures blackKeyDownIndices == old(blackKeyDownIndices) - old(Resolved(Locations(touches), Black))
    {
      var points := Locations(touches);
      var whiteIndices, blackIndices := GetIndices(points);
      whiteKeyDownIndices := whiteKeyDownIndices - whiteIndices;
      blackKeyDownIndices := blackKeyDownIndices - blackIndices;
      UpdateKeysState();
      LaidOutKept();
    }

    /** `touchesCancelled(with:)`: the same release as `touchesEnded`. */
    method TouchesCancelled(touches: seq<Touch>)
      requires Valid() && width != 0.0
      modifies this, whiteKeys, blackKeys
      ensures Valid() && ShowsDownSets()
      ensures whiteKeys == old(whiteKeys) && blackKeys == old(blackKeys)
      ensures forall i :: 0 <= i < |whiteKeys| ==> whiteKeys[i].octave == old(whiteKeys[i].octave)
      ensures forall j :: 0 <= j < |blackKeys| ==> blackKeys[j].octave == old(blackKeys[j].octave)
      ensures numberOfWhiteKeys == old(numberOfWhiteKeys) && width == old(width) && height == old(height)
      ensures FramesOf(whiteKeys) == old(FramesOf(whiteKeys)) && FramesOf(blackKeys) == old(FramesOf(blackKeys))
      ensures old(LaidOut()) ==> LaidOut()
      ensures whiteKeyDownIndices == old(whiteKeyDownIndices) - old(Resolved(Locations(touches), White))
      ensures blackKeyDownIndices == old(blackKeyDownIndices) - old(Resolved(Locations(touches), Black))
    {
      var points := Locations(touches);
      var whiteIndices, blackIndices := GetIndices(points);
      whiteKeyDownIndices := whiteKeyDownIndices - whiteIndices;
      blackKeyDownIndices := blackKeyDownIndices - blackIndices;
      UpdateKeysState();
      LaidOutKept();
    }
  }

  /** Pressing the same touches again changes nothing: the second
      `touchesBegan` finds the keys it resolves already pressed. */
  method TouchesBeganTwice(v: PianoView, touches: seq<Touch>)
    requires v.Valid() && v.width != 0.0
    modifies v, v.whiteKeys, v.blackKeys
    ensures v.Valid() && v.ShowsDownSets()
    ensures v.whiteKeyDownIndices == old(v.whiteKeyDownIndices) + old(v.Resolved(Locations(touches), White))
    ensures v.blackKeyDownIndices == old(v.blackKeyDownIndices) + old(v.Resolved(Locations(touches), Black))
  {
    v.TouchesBegan(touches);
    ghost var white, black := v.whiteKeyDownIndices, v.blackKeyDownIndices;
    v.TouchesBegan(touches);
    assert v.whiteKeyDownIndices == white && v.blackKeyDownIndices == black;
  }
}
