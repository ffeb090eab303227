/** One key of the piano strip (`PianoKey`): a type fixed at construction, an
    up/down state whose observer keeps the layer's background colour in step,
    an octave, and the frame of its layer. */
module Keys {
  import opened Geometry

  /** `PianoKey.KeyType`. */
  datatype KeyType = White | Black

  /** `PianoKey.State`. */
  datatype State = Up | Down

  /** The three colours a key's layer is ever painted with. */
  datatype Color = WhiteColor | BlackColor | RedColor

  /** The `(PianoKey.KeyType, Int)` pair that hit-testing returns: which array
      the key is in and its index there. */
  datatype KeyRef = KeyRef(keyType: KeyType, index: int)

  /** `PianoKey.color`: the resting colour of a key of type `t`. */
  function ColorOf(t: KeyType): (c: Color)
    ensures c != RedColor
  {
    if t == White then WhiteColor else BlackColor
  }

  /** The background the `state` observer paints: the key's own colour while
      up, red while down. */
  function Background(t: KeyType, s: State): (c: Color)
    ensures c == RedColor <==> s.Down?
    ensures s == Up ==> c == ColorOf(t)
  {
    if s == Up then ColorOf(t) else RedColor
  }

  /** Because a resting colour is never red, the background alone tells
      whether a key is down. */
  lemma BackgroundDeterminesState(t: KeyType, s1: State, s2: State)
    requires Background(t, s1) == Background(t, s2)
    ensures s1 == s2
  {
  }

  class PianoKey {
    /** `type`, a `let`: fixed when the key is made. */
    const keyType: KeyType
    var state: State
    var octave: int
    /** `layer.backgroundColor`. */
    var background: Color
    /** `layer.frame`. */
    var frame: Rect

    /** The observer's invariant: the background always shows the state. */
    ghost predicate Valid()
      reads this
    {
      background == Background(keyType, state)
    }

    /** `init(type:)`: an up key painted its own colour, octave 0, and the
        zero frame of a new layer. */
    constructor (t: KeyType)
      ensures keyType == t && state == Up && octave == 0
      ensures background == ColorOf(t) && frame == ZERO_RECT
      ensures Valid()
    {
      keyType := t;
      state := Up;
      octave := 0;
      frame := ZERO_RECT;
      background := ColorOf(t);
    }

    /** An assignment `key.state = s` followed by its `didSet` observer, which
        runs on every assignment, also when `s` is the current state, and
        repaints only the background. */
    method SetState(s: State)
      modifies this`state, this`background
      ensures state == s && Valid()
      ensures octave == old(octave) && frame == old(frame)
    {
      state := s;
      if state == Up {
        background := ColorOf(keyType);
      } else {
        background := RedColor;
      }
    }
  }
}
