/** The note arithmetic of `AudioHelper`: the semitone tables of one octave
    and the MIDI note number that `startNote` and `stopNote` send to the
    sampler. The sampler itself is not modelled; a call is its arguments. */
module Audio {
  import opened Base
  import opened Keys
  import opened Layout

  /** Semitones of the seven white keys of an octave (C D E F G A B). */
  const WHITE_KEY_NUMBERS: seq<int> := [0, 2, 4, 5, 7, 9, 11]
  /** Semitones of the five black keys of an octave (C# D# F# G# A#). */
  const BLACK_KEY_NUMBERS: seq<int> := [1, 3, 6, 8, 10]

  const VELOCITY: UInt8 := 64
  const CHANNEL: UInt8 := 0

  /** The indices `getKeyNumber` can look up without trapping. */
  predicate IsKeyIndex(index: int, t: KeyType) {
    if t == White then 0 <= index < |WHITE_KEY_NUMBERS| else 0 <= index < |BLACK_KEY_NUMBERS|
  }

  /** `getKeyNumber(index:keyType:)`: the key's semitone within its octave. */
  function KeyNumber(index: int, t: KeyType): (r: int)
    requires IsKeyIndex(index, t)
    ensures 0 <= r < 12
  {
    if t == White then WHITE_KEY_NUMBERS[index] else BLACK_KEY_NUMBERS[index]
  }

  /** The key of the octave that plays semitone `s`: the inverse of `KeyNumber`. */
  function KeyOfSemitone(s: int): (k: KeyRef)
    requires 0 <= s < 12
    ensures IsKeyIndex(k.index, k.keyType) && KeyNumber(k.index, k.keyType) == s
  {
    match s
    case 0 => KeyRef(White, 0)
    case 1 => KeyRef(Black, 0)
    case 2 => KeyRef(White, 1)
    case 3 => KeyRef(Black, 1)
    case 4 => KeyRef(White, 2)
    case 5 => KeyRef(White, 3)
    case 6 => KeyRef(Black, 2)
    case 7 => KeyRef(White, 4)
    case 8 => KeyRef(Black, 3)
    case 9 => KeyRef(White, 5)
    case 10 => KeyRef(Black, 4)
    case _ => KeyRef(White, 6)
  }

  /** The two tables together name every semitone of the octave exactly once:
      `KeyOfSemitone` undoes `KeyNumber`. */
  lemma KeyNumberIsBijective(index: int, t: KeyType)
    requires IsKeyIndex(index, t)
    ensures KeyOfSemitone(KeyNumber(index, t)) == KeyRef(t, index)
  {
    if t == White {
      assert index in {0, 1, 2, 3, 4, 5, 6};
    } else {
      assert index in {0, 1, 2, 3, 4};
    }
  }

  /** Within one key type a higher index plays a higher note. */
  lemma KeyNumberIncreasing(i: int, j: int, t: KeyType)
    requires IsKeyIndex(i, t) && IsKeyIndex(j, t) && i < j
    ensures KeyNumber(i, t) < KeyNumber(j, t)
  {
    if t == White {
      assert i in {0, 1, 2, 3, 4, 5} && j in {1, 2, 3, 4, 5, 6};
    } else {
      assert i in {0, 1, 2, 3} && j in {1, 2, 3, 4};
    }
  }

  /** Black key `j` of an octave sounds one semitone above the white key it
      sits right of, and those white keys are exactly the ones that
      `hasBlackKeyAtRight` accepts. */
  lemma BlackKeysFollowWhiteKeys(j: int)
    requires 0 <= j < |BLACK_KEY_NUMBERS|
    ensures IsKeyIndex(BLACK_OFFSETS[j], White)
    ensures KeyNumber(j, Black) == KeyNumber(BLACK_OFFSETS[j], White) + 1
    ensures HasBlackKeyAtRight(BLACK_OFFSETS[j])
    ensures forall p :: 0 <= p < 7 && HasBlackKeyAtRight(p) ==> p in BLACK_OFFSETS
  {
    forall p | 0 <= p < 7 && HasBlackKeyAtRight(p)
      ensures p in BLACK_OFFSETS
    {
      assert p in {0, 1, 3, 4, 5};
    }
  }

  /** `base + octave * 12 + keyNumber`, before its `UInt8` conversion. */
  function NoteNumber(base: int, octave: int, index: int, t: KeyType): int
    requires IsKeyIndex(index, t)
  {
    base + octave * 12 + KeyNumber(index, t)
  }

  predicate FitsUInt8(v: int) {
    0 <= v < 256
  }

  /** What `startNote` asks of the sampler. */
  datatype StartNoteCall = StartNoteCall(note: UInt8, velocity: UInt8, channel: UInt8)
  /** What `stopNote` asks of the sampler. */
  datatype StopNoteCall = StopNoteCall(note: UInt8, channel: UInt8)

  /** `startNote(base:octave:index:keyType:)`. The table lookup traps on an
      index outside the table and `UInt8(_:)` outside 0...255. The note sent
      decodes back to the octave and the key's semitone above `base`. */
  function StartNote(base: int, octave: int, index: int, t: KeyType): (call: StartNoteCall)
    requires IsKeyIndex(index, t) && FitsUInt8(NoteNumber(base, octave, index, t))
    ensures call.velocity == 64 && call.channel == 0
    ensures (call.note as int - base) / 12 == octave
    ensures (call.note as int - base) % 12 == KeyNumber(index, t)
  {
    DecodeNoteNumber(base, octave, index, t);
    StartNoteCall(NoteNumber(base, octave, index, t) as UInt8, VELOCITY, CHANNEL)
  }

  /** `stopNote(base:octave:index:keyType:)`, which looks up `index % 12`
      (Swift's remainder) rather than `index`. */
  function StopNote(base: int, octave: int, index: int, t: KeyType): (call: StopNoteCall)
    requires IsKeyIndex(Rem(index, 12), t) && FitsUInt8(NoteNumber(base, octave, Rem(index, 12), t))
    ensures call.channel == 0
    ensures (call.note as int - base) / 12 == octave
    ensures (call.note as int - base) % 12 == KeyNumber(Rem(index, 12), t)
  {
    DecodeNoteNumber(base, octave, Rem(index, 12), t);
    StopNoteCall(NoteNumber(base, octave, Rem(index, 12), t) as UInt8, CHANNEL)
  }

  lemma DecodeNoteNumber(base: int, octave: int, index: int, t: KeyType)
    requires IsKeyIndex(index, t)
    ensures (NoteNumber(base, octave, index, t) - base) / 12 == octave
    ensures (NoteNumber(base, octave, index, t) - base) % 12 == KeyNumber(index, t)
  {
    var k := KeyNumber(index, t);
    assert NoteNumber(base, octave, index, t) - base == octave * 12 + k;
  }

  /** For every index `startNote` accepts, `stopNote` accepts it too and
      stops the very note `startNote` started. */
  lemma StopNoteStopsStartedNote(base: int, octave: int, index: int, t: KeyType)
    requires IsKeyIndex(index, t) && FitsUInt8(NoteNumber(base, octave, index, t))
    ensures Rem(index, 12) == index
    ensures StopNote(base, octave, index, t).note == StartNote(base, octave, index, t).note
  {
  }

  /** Because `stopNote` reduces the index modulo 12 first, it also accepts
      a non-negative index twelve higher and stops the same note for it. */
  lemma StopNoteIgnoresWholeDozens(base: int, octave: int, index: int, t: KeyType)
    requires index >= 0
    requires IsKeyIndex(Rem(index, 12), t) && FitsUInt8(NoteNumber(base, octave, Rem(index, 12), t))
    ensures Rem(index + 12, 12) == Rem(index, 12)
    ensures StopNote(base, octave, index + 12, t) == StopNote(base, octave, index, t)
  {
  }

  /** With a fixed base, the note number identifies the key: its octave, its
      type and its index. */
  lemma NoteNumberIdentifiesKey(base: int, o1: int, i1: int, t1: KeyType, o2: int, i2: int, t2: KeyType)
    requires IsKeyIndex(i1, t1) && IsKeyIndex(i2, t2)
    requires NoteNumber(base, o1, i1, t1) == NoteNumber(base, o2, i2, t2)
    ensures o1 == o2 && i1 == i2 && t1 == t2
  {
    DecodeNoteNumber(base, o1, i1, t1);
    DecodeNoteNumber(base, o2, i2, t2);
    KeyNumberIsBijective(i1, t1);
    KeyNumberIsBijective(i2, t2);
  }
}
