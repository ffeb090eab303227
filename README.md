# Piano strip of the touch-bar piano widget

This project models the core of a touch-bar piano widget in Dafny. The widget has three parts:

- **`PianoView`** lays out a strip of white and black keys. It resolves touch points to keys and keeps two sets of pressed key indices, one for white keys and one for black keys.
- **`PianoKey`** is a key whose up/down state repaints its background through a property observer.
- **`AudioHelper`** turns a key into a MIDI note number for a sampler.

Modules:

- `Base`: Swift's `Int(_:)` truncation of a floating-point value (`Trunc`), Swift's sign-keeping `%` (`Rem`), `UInt8` and `Option`.
- `Geometry`: `CGPoint` and `CGRect`. `CGRect.contains` is half-open and standardizes negative sizes.
- `Keys`: the `PianoKey` class, with its `KeyType` and `State` enums and the three colours its layer is painted with.
- `Layout`: the pure part of `PianoView`:
  - the black-key pattern `hasBlackKeyAtRight` and the black-key count it implies;
  - key widths and frames;
  - the hit test `getKeyIndex` (`KeyAt`) and `getIndices` (`HitIndices`);
  - the geometric facts that make the hit test right.
- `Audio`: `getKeyNumber`'s semitone tables and the note number `startNote` and `stopNote` send. A sampler call is represented by its arguments.
- `View`: the `PianoView` class:
  - setup and layout loops;
  - the hit test as loops proved equal to `KeyAt` and `HitIndices`;
  - `updateKeysState`;
  - the four touch handlers, stated as set algebra over the resolved indices.

Coordinates (`CGFloat`) are exact reals.

Two cases of the width division need care:

- With no white keys, `whiteKeyWidth` is `width / 0`. For a non-zero frame width that quotient is infinite, so `point.x / whiteKeyWidth` is 0. The column is then 0, which is not an index of the empty `whiteKeys`, so the hit test returns nil. `Column` models this.
- A zero frame width makes `Int(_:)` trap on NaN or an infinite value. The hit test therefore requires `width != 0`.

`numberOfWhiteKeys` is a `var` in the source but is never reassigned. `PianoView.Valid` ties it to `|whiteKeys|` and ties `|blackKeys|` to the black-key count.

## Model

| member | source | states |
|---|---|---|
| Base.Rem | pock_piano_widget/View/PianoView.swift:238 | Swift `%`: `a - r` is a multiple of `b`, and `r` lies in `[0, b)` for a non-negative dividend and in `(-b, 0]` for a negative one, which fixes it uniquely |
| Base.Trunc | pock_piano_widget/View/PianoView.swift:164 | `Int(_:)` on a floating value truncates toward zero: the result is the integer within 1 of `r` on the side of zero |
| Geometry.ContainsNonNegative | pock_piano_widget/View/PianoView.swift:175 | for a rectangle of non-negative size, `contains` holds exactly on `[x, x+w) × [y, y+h)` |
| Keys.ColorOf | pock_piano_widget/View/PianoKey.swift:34-36 | a key's resting colour is never the pressed red |
| Keys.Background | pock_piano_widget/View/PianoKey.swift:22-30 | the observer paints red exactly when the state is down, and the key's own colour when up |
| Keys.BackgroundDeterminesState | pock_piano_widget/View/PianoKey.swift:22-30 | the painted background determines the state uniquely |
| Keys.PianoKey.constructor | pock_piano_widget/View/PianoKey.swift:40-50 | a new key has the given fixed type, is up, has octave 0 and a zero frame, and is painted its own colour |
| Keys.PianoKey.SetState | pock_piano_widget/View/PianoKey.swift:22-30 | every assignment to `state` sets it and repaints the background to match; octave and frame are untouched |
| Layout.HasBlackKeyAtRight | pock_piano_widget/View/PianoView.swift:237-240 | `hasBlackKeyAtRight(for:)`: false exactly when Swift's `index % 7` is 2 or 6; a negative position has a non-positive remainder and so always qualifies |
| Layout.BlackKeysBefore | pock_piano_widget/View/PianoView.swift:124-135 | the number of positions in `0..<n` that carry a black key, which is at most `n` |
| Layout.HasBlackKeyAtRightPattern | pock_piano_widget/View/PianoView.swift:237-240 | for `p >= 0`: a black key sits right of `p` iff `p % 7` is neither 2 nor 6, and the pattern repeats every 7 positions |
| Layout.BlackKeysBeforeClosedForm | pock_piano_widget/View/PianoView.swift:124-135 | `setupBlackKeys` creates `5*(n/7) + [0,1,2,2,3,4,5][n%7]` black keys for `n` white keys |
| Layout.BlackKeysBeforeMonotone | pock_piano_widget/View/PianoView.swift:149-160 | more white positions never yield fewer black keys |
| Layout.BlackPositionInBlock | pock_piano_widget/View/PianoView.swift:144-160 | black key `j` sits right of a position in octave block `j/5` that has a black key at its right |
| Layout.BlackPositionIncreasing | pock_piano_widget/View/PianoView.swift:149-160 | black keys are laid out left to right in index order |
| Layout.BlackPositionOfCount | pock_piano_widget/View/PianoView.swift:149-160 | at a position with a black key, the running counter of `updateBlackKeys` designates exactly the black key placed there |
| Layout.CountOfBlackPosition | pock_piano_widget/View/PianoView.swift:124-135 | every existing black key `j` belongs to a position below `n` and is the one counted there, so the counter never passes the array |
| Layout.WhiteKeyWidth | pock_piano_widget/View/PianoView.swift:15-17 | `whiteKeyWidth`: the frame width divided by the number of white keys, for a non-empty strip |
| Layout.BlackKeyWidth | pock_piano_widget/View/PianoView.swift:18-20 | `blackKeyWidth`: 0.6 of the white-key width |
| Layout.BlackKeyHeight | pock_piano_widget/View/PianoView.swift:21-23 | `blackKeyHeight`: 0.6 of the frame height |
| Layout.WhiteKeyFrame | pock_piano_widget/View/PianoView.swift:140 | white key `i` occupies `(w*i, 0, w, H)` |
| Layout.BlackKeyFrame | pock_piano_widget/View/PianoView.swift:155-157 | the black key right of position `p` is centred on `w*(p+1)`, measures `0.6w × 0.6H`, and hangs from the top edge at `y = H − 0.6H` |
| Layout.Column | pock_piano_widget/View/PianoView.swift:164 | `Int(point.x / whiteKeyWidth)`, truncated toward zero, and 0 for an empty strip whose key width is infinite |
| Layout.WhiteKeysShareWidth | pock_piano_widget/View/PianoView.swift:15-17 | the `n` white keys share the frame width exactly, and each is positive when the strip is |
| Layout.FirstBlackHit | pock_piano_widget/View/PianoView.swift:169-178 | the candidate search returns the first in-range candidate whose frame contains the point, and returns none only if no candidate contains it |
| Layout.KeyAt | pock_piano_widget/View/PianoView.swift:163-181 | nil iff the truncated column is not a white index; a white result is that column; a black result is a valid index in the column's octave block whose frame contains the point |
| Layout.HitIndices | pock_piano_widget/View/PianoView.swift:211-226 | every resolved index is valid for its array |
| Layout.HitIndicesMembers | pock_piano_widget/View/PianoView.swift:211-226 | an index is in the result iff some point resolves to it with that type |
| Layout.HitIndicesRepeatedPoint | pock_piano_widget/View/PianoView.swift:211-226 | repeating a point adds no index |
| Layout.BlackFrameSpan | pock_piano_widget/View/PianoView.swift:155-157 | a point on the black key right of `pos` lies between `pos + 0.7` and `pos + 1.3` key widths |
| Layout.BlackFramesDisjoint | pock_piano_widget/View/PianoView.swift:155-157 | no point lies on two different black keys |
| Layout.BlackKeyColumn | pock_piano_widget/View/PianoView.swift:164-169 | a point on black key `j` has column `pos` or `pos+1`, inside the octave block `j/5` that the hit test searches |
| Layout.BlackKeyWins | pock_piano_widget/View/PianoView.swift:163-181 | on laid-out keys, a point on black key `j` resolves to black key `j` whenever its column is a white index: the candidates are complete and black wins over white |
| Layout.BlackKeyCoversWhiteKey | pock_piano_widget/View/PianoView.swift:163-181 | a point resolved to a black key also lies on the frame of the white key of its column |
| Layout.BlackFrameOverWhite | pock_piano_widget/View/PianoView.swift:155-157 | a point on a black key also lies on the white frame of the column it truncates to |
| Layout.WhiteKeysTile | pock_piano_widget/View/PianoView.swift:137-141 | a point is on some white frame iff it is inside the strip, and then only on the frame of its column |
| Layout.LeftOfStripResolvesToFirstKey | pock_piano_widget/View/PianoView.swift:164-166 | because `Int()` truncates, a point less than one key width left of the strip resolves to white key 0, though no white frame contains it |
| Audio.KeyNumber | pock_piano_widget/AudioHelper.swift:52-61 | a valid table index gives a semitone in `0..11` |
| Audio.KeyOfSemitone | pock_piano_widget/AudioHelper.swift:52-61 | every semitone `0..11` is played by a key of the octave |
| Audio.KeyNumberIsBijective | pock_piano_widget/AudioHelper.swift:52-61 | the two tables name each semitone exactly once: `KeyOfSemitone` inverts `KeyNumber` |
| Audio.KeyNumberIncreasing | pock_piano_widget/AudioHelper.swift:56-58 | within one key type a larger index plays a higher semitone |
| Audio.BlackKeysFollowWhiteKeys | pock_piano_widget/AudioHelper.swift:56-58 | black key `j` sounds one semitone above the white key it sits right of, and those white keys are exactly the positions `hasBlackKeyAtRight` accepts |
| Audio.IsKeyIndex | pock_piano_widget/AudioHelper.swift:56-58 | the indices the table lookup accepts without trapping: 0..6 for white keys, 0..4 for black keys |
| Audio.NoteNumber | pock_piano_widget/AudioHelper.swift:43 | `base + octave * 12 + keyNumber` before the `UInt8` conversion |
| Audio.StartNote | pock_piano_widget/AudioHelper.swift:40-44 | the note sent decodes back to the octave and the key's semitone above `base`, with velocity 64 on channel 0; a bad index or a note outside `UInt8` is a precondition |
| Audio.StopNote | pock_piano_widget/AudioHelper.swift:46-50 | the note stopped decodes to the octave and the semitone of `index % 12`, on channel 0 |
| Audio.DecodeNoteNumber | pock_piano_widget/AudioHelper.swift:43 | `base + octave*12 + keyNumber` decodes to octave and semitone |
| Audio.StopNoteStopsStartedNote | pock_piano_widget/AudioHelper.swift:40-50 | for every index `startNote` accepts, `stopNote` accepts it and stops the same note |
| Audio.StopNoteIgnoresWholeDozens | pock_piano_widget/AudioHelper.swift:47 | `stopNote` stops the same note for `index` and `index + 12` |
| Audio.NoteNumberIdentifiesKey | pock_piano_widget/AudioHelper.swift:43 | for a fixed base, the note number identifies octave, key type and index |
| View.Locations | pock_piano_widget/View/PianoView.swift:58 | each touch's current location, in touch order |
| View.PreviousLocations | pock_piano_widget/View/PianoView.swift:72 | each touch's previous location, in touch order |
| View.PianoView.constructor | pock_piano_widget/View/PianoView.swift:30-36 | a new view has `n` white keys and the matching black keys, all fresh, up and laid out, with nothing pressed |
| View.PianoView.SetupWhiteKeys | pock_piano_widget/View/PianoView.swift:114-122 | one fresh up white key per position, each laid out in its slot |
| View.PianoView.SetupBlackKeys | pock_piano_widget/View/PianoView.swift:124-135 | `BlackKeysBefore(n)` fresh up black keys, each laid out right of its position |
| View.PianoView.UpdateWhiteKeys | pock_piano_widget/View/PianoView.swift:137-142 | white key `i` gets frame `(w*i, 0, w, H)`; states are untouched |
| View.PianoView.UpdateBlackKeys | pock_piano_widget/View/PianoView.swift:144-161 | black key `j` gets the frame centred on boundary `w*(pos+1)`, of size `0.6w × 0.6H`, hanging from the top; the counter stays in bounds |
| View.PianoView.Layout | pock_piano_widget/View/PianoView.swift:47-52 | re-laying out keeps the invariant and every key's state and re-establishes every frame |
| View.PianoView.GetKeyIndex | pock_piano_widget/View/PianoView.swift:163-181 | the loop with early return computes `KeyAt` on the current black frames |
| View.PianoView.GetIndices | pock_piano_widget/View/PianoView.swift:211-226 | the loop computes `HitIndices` for both key types |
| View.PianoView.UpdateKeysState | pock_piano_widget/View/PianoView.swift:228-235 | afterwards every key is down iff its index is in its type's pressed set; frames, octaves and arrays are unchanged |
| View.ShowDownSet | pock_piano_widget/View/PianoView.swift:229-234 | one loop of `updateKeysState`: key `i` ends down iff `i` is in the pressed set, repainted to match, with frame and octave unchanged |
| View.PianoView.TouchesBegan | pock_piano_widget/View/PianoView.swift:54-64 | the pressed sets grow by the resolved indices, the keys show them, a laid-out view stays laid out, and nothing else changes |
| View.PianoView.TouchesMoved | pock_piano_widget/View/PianoView.swift:66-82 | the pressed sets become `(D ∪ now) − (before − now)` and the keys show them; frames and octaves are unchanged, so a laid-out view stays laid out |
| View.PianoView.TouchesEnded | pock_piano_widget/View/PianoView.swift:84-95 | the pressed sets lose the resolved indices and the keys show them; frames and octaves are unchanged, so a laid-out view stays laid out |
| View.PianoView.TouchesCancelled | pock_piano_widget/View/PianoView.swift:97-107 | the same release as `touchesEnded`, with frames and octaves unchanged and a laid-out view staying laid out |
| View.MovedDownSet | pock_piano_widget/View/PianoView.swift:74-79 | after a move, every key under a touch is pressed, a key a touch left is released unless a touch is still on it, and other keys keep their state |
| View.TouchesBeganTwice | pock_piano_widget/View/PianoView.swift:54-64 | beginning the same touches twice leaves the same pressed sets as once |

## Left out

- The audio engine is not modelled. This covers `AVAudioEngine` and `AVAudioUnitSampler` set-up, `start`, `stop`, `deinit`, and the sampler's own `startNote`/`stopNote`. Each call is represented by its arguments (`StartNoteCall`, `StopNoteCall`).
- AppKit event delivery (`event.touches(for:)`, `location(in:)`, `previousLocation(in:)`) is not modelled. The handlers take a list of touches with their current and previous locations.
- CALayer rendering is not modelled: sublayer insertion, border width, corner radius, masked corners and `draw(_:)`. A layer is its frame and its background colour.
- Floating-point rounding is not modelled; coordinates are exact reals. A zero frame width, which makes `Int(_:)` trap, is a precondition of hit-testing.
- `getKey(at:)`, `getBlackKeyIndex(at:)` and `getWhiteKeyIndex(at:)` are not modelled. They are private wrappers around `getKeyIndex` that nothing calls.
- Not modelled: the widget host (`PianoWidget.swift`), preferences, the preference pane and the unused `NSColor` extension. Nothing in the modelled files calls them. The base note 48 and the 40-key strip they choose are ordinary parameters here.
- Not modelled: changing the number of keys after setup, hiding black keys, a touch tracker that diffs snapshots, and key-down/key-up callbacks. The code has none of them, so the model follows the code. For the same reason, the column is the truncation `Int(x / w)`, not a floor.
- Swift's `Int` is 64 bits and traps on overflow; the model's `int` is unbounded. So the overflow traps of `base + octave * 12 + keyNumber` (AudioHelper.swift:43 and 49, `Audio.StartNote` and `Audio.StopNote`) and of `Int(_:)` on a finite quotient outside `Int`'s range (PianoView.swift:164, `Base.Trunc`) are not modelled; only the final `UInt8` conversion is a precondition.
- `octave` is never assigned by the modelled code. It is a field that keeps its initial 0 through every operation here.
- `Keys.PianoKey.SetState` models `key.state = s`. Code outside the modelled files that writes `state` directly is not modelled.
