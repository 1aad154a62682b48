# Spline path and character playback, modelled in Dafny

This project models two pieces of a motion-capture playback program.

**The cubic Hermite path spline `Spline3`** (`spline.dfy`, module `Splines`).
- A spline is a sequence of control points `(t, p, dp)`: a time, a position and a tangent.
- `findSegment` is a method with the source's loop.
  - When `t` is past the last time, it wraps `t` with C `fmod`.
  - It then counts the leading control points whose time is at or before `t`.
- `getValue` and `getDerivative` are functions of the points and the time.
  - Each rescales the time into the segment.
  - Each multiplies the two tangents by the segment's duration.
  - Each evaluates the four Hermite basis polynomials, or their derivatives.
- Everything is over exact reals. `fmod` is `x - y * trunc(x / y)`.

**The animated character** (`character.dfy`, `skeleton.dfy`, `matrix_stack.dfy`, `transforms.dfy`).
- `Character` is a class holding the playback clock and the root pose.
  - `advance` steps one `nextFrame` per 120 Hz frame index crossed. A frame index is `round(120 * time)`, with C `round`.
  - `nextFrame` itself is a counter.
- A bone is a value: name, length, direction, local rotation and children.
- Transforms (`glm::mat4`) are words of translation and rotation factors. Matrix product is concatenation of words.
- The OpenGL matrix stack is a class with the current matrix, the saved matrices and a log of what was drawn.
  - `Bone::draw` and `Character::draw` are recursive or looping methods against this stack.
  - Their contracts give the exact log they produce.
  - Lemmas about that log prove that:
    - every push is matched by a pop;
    - every bone is drawn exactly once, in preorder;
    - each child is drawn under its parent's matrix times the parent's local rotation times the translation by the parent's bone vector.

Where the code and its comments disagree, the model follows the code.
- The comment on `findSegment` (`spline.hpp:24`) says it returns `i` with `points[i].t <= t < points[i+1].t`. The code returns that `i` plus one.
- The comment at `spline.hpp:25` says `t` is brought into `[minTime, maxTime]`. The code only wraps times past `maxTime`, and it uses `fmod`, so the result can fall below `minTime`.

## Model

| member | source | states |
|---|---|---|
| Splines.MinTime | vlad_4611_project_4/spline.hpp:21 | for time-sorted points no control point is earlier than minTime |
| Splines.MaxTime | vlad_4611_project_4/spline.hpp:22 | for time-sorted points no control point is later than maxTime |
| Splines.Trunc | vlad_4611_project_4/spline.hpp:47 | the integer part fmod uses: rounding toward zero, characterised by its bounds on each sign |
| Splines.Fmod | vlad_4611_project_4/spline.hpp:47 | C fmod: x less a whole multiple of y, with the sign of x and smaller in magnitude than y |
| Splines.FmodBounds | vlad_4611_project_4/spline.hpp:47 | x - y·trunc(x/y) lies in [0, abs(y)) for x ≥ 0 and in (-abs(y), 0] for x ≤ 0, for either sign of y |
| Splines.FmodPeriodic | vlad_4611_project_4/spline.hpp:46-47 | fmod(x + y, y) == fmod(x, y) for x ≥ 0 < y |
| Splines.WrappedTime | vlad_4611_project_4/spline.hpp:46-47 | t is unchanged when t ≤ maxTime; a wrapped t lands in [0, maxTime) when maxTime > 0 |
| Splines.WrappedTimePeriodic | vlad_4611_project_4/spline.hpp:46-47 | for 0 < t ≠ maxTime (and maxTime > 0), t and t + maxTime are searched at the same time, as the comment on the wrap promises for later times |
| Splines.LeadingCount | vlad_4611_project_4/spline.hpp:49-57 | the count is at most n, every counted point is at or before t, and the first uncounted point is after t |
| Splines.FindSegment | vlad_4611_project_4/spline.hpp:35-60 | returns the wrapped time and the number of leading points at or before it, bracketing the time between the last counted point and the next |
| Splines.LeadingCountMonotone | vlad_4611_project_4/spline.hpp:50-57 | the segment index never decreases as the searched (wrapped) time grows |
| Splines.LeadingCountCountsAll | vlad_4611_project_4/spline.hpp:50-57 | for time-sorted points the early break loses nothing: the index is the number of all points at or before t |
| Splines.LeadingCountAt | vlad_4611_project_4/spline.hpp:49-58 | a t in [points[k].t, points[k+1].t) gets index k + 1, not the k of the comment |
| Splines.SegmentBrackets | vlad_4611_project_4/spline.hpp:49-58 | for n ≥ 2 and minTime ≤ t < maxTime the index seg is in 1..n-1 and points[seg-1].t ≤ t < points[seg].t |
| Splines.QueryableFromZero | vlad_4611_project_4/spline.hpp:46-58 | for a spline starting at time 0, every t ≥ 0 except maxTime itself gets an in-range segment |
| Splines.MaxTimeIsNotQueryable | vlad_4611_project_4/spline.hpp:46-58 | t == maxTime is not wrapped and gets index n, one past the last segment |
| Splines.BelowMinTimeIsNotQueryable | vlad_4611_project_4/spline.hpp:49-58 | a searched time below minTime gets index 0, so points[seg-1] is out of range |
| Splines.WrapBelowMinTimeExample | vlad_4611_project_4/spline.hpp:46-47 | points at times 1 and 2 wrap t = 2.5 to 0.5, below minTime, so no segment is valid |
| Splines.BasisDerivatives | vlad_4611_project_4/spline.hpp:110-121 | each of getDerivative's four coefficients is the derivative of the matching getValue coefficient (the change over a step e is e·D plus an e² term) |
| Splines.LineCoefficients | vlad_4611_project_4/spline.hpp:79-82 | h00 + h01 = 1 and h10 + h01 + h11 = rt, the identities behind exact reproduction of lines |
| Splines.HermiteSegment | vlad_4611_project_4/spline.hpp:72-84 | one segment's value: the four Hermite coefficients at rt = (t - t0)/(t1 - t0) against p0, (t1 - t0)·dp0, p1 and (t1 - t0)·dp1; SegmentStartsAtControlPoint, SegmentEndsAtControlPoint and SegmentReproducesLines state its properties |
| Splines.SegmentStartsAtControlPoint | vlad_4611_project_4/spline.hpp:79-84 | a segment's expression at its start time is the start point |
| Splines.SegmentEndsAtControlPoint | vlad_4611_project_4/spline.hpp:79-84 | a segment's expression at its end time is the end point |
| Splines.AdjacentSegmentsMeet | vlad_4611_project_4/spline.hpp:79-84 | two adjacent segments give the same position, the shared control point, at their shared time |
| Splines.SegmentReproducesLines | vlad_4611_project_4/spline.hpp:72-84 | with both tangents v and p1 = p0 + v·(t1 - t0), the segment is the line p0 + v·(t - t0) |
| Splines.GetValue | vlad_4611_project_4/spline.hpp:62-86 | getValue: the segment findSegment picks, evaluated at the searched time; GetValueAtControlPoint, GetValueOnLine and ClampedValueAgrees state its properties |
| Splines.RescaledTime | vlad_4611_project_4/spline.hpp:66-70 | the rescaled time lies in [0, 1) on every input with an in-range segment |
| Splines.GetValueAtControlPoint | vlad_4611_project_4/spline.hpp:62-86 | getValue(points[k].t) == points[k].p for every control point but the last |
| Splines.GetValueOnLine | vlad_4611_project_4/spline.hpp:62-86 | a two-point constant-velocity spline returns the straight line through its points |
| Splines.HermiteSegmentDerivative | vlad_4611_project_4/spline.hpp:103-124 | one segment's written derivative: the four derivative coefficients against the same scaled tangents; BasisDerivatives, SlopeAtEnds and GetDerivativeIsDurationTimesVelocity state its properties |
| Splines.GetDerivative | vlad_4611_project_4/spline.hpp:88-127 | getDerivative as written: the segment's derivative sum at the searched time; GetDerivativeIsDurationTimesVelocity, WrittenDerivativeAtKnot and ExampleCurveAtMidpoint state its properties |
| Splines.SlopeAtEnds | vlad_4611_project_4/spline.hpp:103-125 | getDerivative's segment expression is duration·dp at both ends of the segment |
| Splines.GetDerivativeIsDurationTimesVelocity | vlad_4611_project_4/spline.hpp:88-127 | getDerivative as written is the segment duration times the true time derivative |
| Splines.WrittenDerivativeAtKnot | vlad_4611_project_4/spline.hpp:103-125 | at an inner control point the two adjacent segments give equal written derivatives exactly when their durations agree or the tangent is zero |
| Splines.ExampleCurveAtMidpoint | vlad_4611_project_4/spline.hpp:62-127 | on a two-point curve over [0, 10], at t = 5 the value is (7.5,0,0), the time derivative (1.75,0,0), and getDerivative returns (17.5,0,0) |
| Splines.Velocity | vlad_4611_project_4/spline.hpp:31 | the corrected getDerivative: the written sum divided by the segment duration; VelocityIsTimeDerivative and VelocityAtControlPoints state that it is d/dt and meets the tangents |
| Splines.VelocityIsTimeDerivative | vlad_4611_project_4/spline.hpp:31 | the corrected derivative predicts the segment's change over any step h up to an h² term, so it is d/dt |
| Splines.VelocityAtControlPoints | vlad_4611_project_4/spline.hpp:31 | the corrected derivative equals the control point's tangent dp at both ends of a segment |
| Splines.ClampedTime | vlad_4611_project_4/spline.hpp:37-40 | the wrapped time brought into [minTime, maxTime]: unchanged when already inside, minTime when below, maxTime when above |
| Splines.ClampedTimeIsClosest | vlad_4611_project_4/spline.hpp:37-40 | the clamped time is at least as close to the wrapped time as any time in [minTime, maxTime]: the closest time in range |
| Splines.ClampedSegment | vlad_4611_project_4/spline.hpp:49-58 | for every input the segment is in 1..n-1 and brackets the clamped time |
| Splines.ClampedValue | vlad_4611_project_4/spline.hpp:62-86 | the corrected getValue: the segment of the clamped time (the closest time in range that the comment at spline.hpp:37-40 asks for), defined for every t; ClampedValueAtEveryControlPoint and ClampedValueAgrees state its properties |
| Splines.ClampedValueAtEveryControlPoint | vlad_4611_project_4/spline.hpp:62-86 | the corrected evaluation returns points[k].p at every control point, the last included |
| Splines.ClampedValueAgrees | vlad_4611_project_4/spline.hpp:62-86 | wherever getValue reads in range, the corrected evaluation returns the same value |
| Transforms.Translate | vlad_4611_project_4/character.hpp:172 | a translation moves every point by its vector |
| Transforms.Rotate | vlad_4611_project_4/character.hpp:173-175 | a rotation fixes the origin |
| Transforms.ApplyCompose | vlad_4611_project_4/character.hpp:193 | applying a product a·b applies b first, then a |
| Transforms.ComposeMonoid | vlad_4611_project_4/character.hpp:170-176 | composition is associative and the identity matrix is neutral |
| Transforms.RotationsFixOrigin | vlad_4611_project_4/character.hpp:173-175 | any product of rotations fixes the origin |
| Transforms.TranslationColumnOfTranslateThenRotate | vlad_4611_project_4/character.hpp:170-181 | translate(p) followed by rotations has p as its translation column |
| MatrixStacks.MatrixStack.constructor | vlad_4611_project_4/character.hpp:189-191 | a stack starts with the given current matrix, nothing saved and nothing drawn |
| MatrixStacks.MatrixStack.PushMatrix | vlad_4611_project_4/character.hpp:224 | saves a copy of the current matrix and leaves the current matrix unchanged |
| MatrixStacks.MatrixStack.PopMatrix | vlad_4611_project_4/character.hpp:247 | restores and removes the most recently saved matrix |
| MatrixStacks.MatrixStack.MultMatrix | vlad_4611_project_4/character.hpp:225 | post-multiplies the current matrix |
| MatrixStacks.MatrixStack.TranslateBy | vlad_4611_project_4/character.hpp:237 | post-multiplies the current matrix by a translation |
| MatrixStacks.MatrixStack.DrawLine | vlad_4611_project_4/character.hpp:228 | records a line along v under the current matrix |
| MatrixStacks.MatrixStack.DrawCapsule | vlad_4611_project_4/character.hpp:236 | records a capsule of the bone's length along v under the current matrix |
| MatrixStacks.MatrixStack.DrawAxes | vlad_4611_project_4/character.hpp:238 | records an axes marker under the current matrix |
| MatrixStacks.ReplayAppend | vlad_4611_project_4/character.hpp:191-199 | replaying two logs in turn is replaying their concatenation |
| MatrixStacks.BalancedAppend | vlad_4611_project_4/character.hpp:195-197 | balanced logs drawn one after another give a balanced log |
| MatrixStacks.BalancedBracket | vlad_4611_project_4/character.hpp:224-247 | a balanced log between a push and a pop is balanced |
| Skeletons.BoneVectorLength | vlad_4611_project_4/character.hpp:125 | the bone vector's squared length is length² times the direction's, and it is zero only for a zero length or direction |
| Skeletons.BoneVector | vlad_4611_project_4/character.hpp:125 | getBoneVector: length times direction; BoneVectorLength states its length and when it vanishes |
| Skeletons.DrawBone | vlad_4611_project_4/character.hpp:207-249 | leaves the current and saved matrices as it found them and appends exactly the bone's log |
| Skeletons.BoneLog | vlad_4611_project_4/character.hpp:207-249 | the primitives Bone::draw issues: a push, line, capsule and axes, the children's logs under the tip frame, and a pop; DrawBone produces it, BoneLogBalanced and LinesArePreorder state its properties |
| Skeletons.ForestLog | vlad_4611_project_4/character.hpp:240-245 | the loop over the children: their logs one after another under one frame; ForestLogBalanced, RootEntryFrame, ChildEntryFrame and LinesArePreorder state its properties |
| Skeletons.BoneLogBalanced | vlad_4611_project_4/character.hpp:224-247 | every push a bone's drawing issues is matched by a pop, and no pop goes below the starting depth |
| Skeletons.ForestLogBalanced | vlad_4611_project_4/character.hpp:240-245 | drawing the children in turn is balanced |
| Skeletons.RootEntryFrame | vlad_4611_project_4/character.hpp:193-196 | each root bone is drawn under the matrix current after the coordinate frame is applied |
| Skeletons.ChildEntryFrame | vlad_4611_project_4/character.hpp:225-243 | the j-th child of a bone is drawn under the parent's matrix times its local rotation times the translation by its bone vector |
| Skeletons.PathsExact | vlad_4611_project_4/character.hpp:240-245 | the visited paths are exactly the paths that name a bone of the tree |
| Skeletons.PathsDistinct | vlad_4611_project_4/character.hpp:240-245 | no bone is visited twice |
| Skeletons.LinesArePreorder | vlad_4611_project_4/character.hpp:207-249 | the lines drawn are one per bone, in preorder with children in vector order, each under the matrix of the composition rule |
| Skeletons.SameShapeNames | vlad_4611_project_4/character.hpp:78 | two skeletons that differ only in local rotations have the same bone names |
| Characters.Round | vlad_4611_project_4/character.hpp:164 | C round: the unique integer within one half of x, ties away from zero |
| Characters.RoundMonotone | vlad_4611_project_4/character.hpp:164 | round never decreases as its argument grows |
| Characters.FramesCrossed | vlad_4611_project_4/character.hpp:164-165 | the number of loop iterations of advance: max(0, round(120(t+dt)) - round(120·t)); Advance, AdvanceNeverRewinds, AdvanceComposes and AdvanceKeepsSync state its properties |
| Characters.Character.constructor | vlad_4611_project_4/character.hpp:152-160 | the clock starts at 0 with no frame read, in step with round(120·time) |
| Characters.Character.NextFrame | vlad_4611_project_4/character.hpp:66 | reads one more frame, leaves the clock alone and keeps the skeleton: bone names, lengths, directions and children, the bone table's names, and the base position and velocity |
| Characters.Character.Advance | vlad_4611_project_4/character.hpp:162-168 | moves the clock by exactly dt and calls nextFrame max(0, round(120(time+dt)) - round(120·time)) times, keeping frames and clock in step for dt ≥ 0; the skeleton, the bone table's names, the base motion and hasSkeleton are as before; when no frame is crossed, only the clock changes: the root pose, the bones and the bone table are untouched |
| Characters.AdvanceNeverRewinds | vlad_4611_project_4/character.hpp:164-166 | a dt ≤ 0 steps no frame |
| Characters.AdvanceComposes | vlad_4611_project_4/character.hpp:162-168 | for dt1, dt2 ≥ 0, advancing by dt1 then dt2 steps as many frames as advancing by dt1 + dt2 |
| Characters.AdvanceKeepsSync | vlad_4611_project_4/character.hpp:162-168 | from a clock in step with round(120·time), a forward advance lands in step again, so frames read equal round(120·time) from the constructor on |
| Characters.Character.CoordinateFrame | vlad_4611_project_4/character.hpp:170-177 | the root frame is translate(position)·Rz·Ry·Rx, in that order |
| Characters.Character.CurrentPosition | vlad_4611_project_4/character.hpp:179-181 | the current position is the translation column of the coordinate frame |
| Characters.Character.Draw | vlad_4611_project_4/character.hpp:183-201 | leaves the stack as it found it and appends a push, the root bones' logs under current·frame, and a pop |
| Characters.CharacterLog | vlad_4611_project_4/character.hpp:183-201 | the primitives Character::draw issues: a push, the root bones' logs under current·frame, and a pop; Draw produces it, CharacterLogBalanced and CharacterLines state its properties |
| Characters.CharacterLogBalanced | vlad_4611_project_4/character.hpp:191-199 | the character's drawing is balanced |
| Characters.CharacterLines | vlad_4611_project_4/character.hpp:183-201 | the character draws every bone once, in preorder, each root under current·frame |
| Characters.Character.HasSkeleton | vlad_4611_project_4/character.hpp:60 | hasSkeleton: the bone table is not empty; HasSkeletonIffRoots relates it to the tree and Advance keeps it |
| Characters.IndexSurvivesPlayback | vlad_4611_project_4/character.hpp:162-168 | a bone table that indexes the tree still indexes it after playback changes the rotations |
| Characters.HasSkeletonIffRoots | vlad_4611_project_4/character.hpp:60 | when the bone table indexes the tree's bones, hasSkeleton holds exactly when there is a root bone |

## Left out

- Floating point: every quantity is an exact real. Rounding in the Hermite arithmetic, in `fmod`, in `120 * time` at frame boundaries and in the accumulation of `time` is not modelled.
- `int f0`/`f1` in `advance` are unbounded integers: the conversion of an out-of-range float to `int` is not modelled.
- `fmod(t, 0)` (a NaN) when `maxTime` is 0 and `t > 0` is excluded by the precondition `WrapDefined`. `minTime`/`maxTime` of an empty spline (undefined behaviour) is excluded by requiring at least one point.
- Splines.GetValue, Splines.GetDerivative: require `Queryable`, the inputs on which the source indexes in range; the other inputs are out-of-range reads in the source (first row of Findings).
- Trigonometry: rotations are abstract factors with an angle and an axis. `glm::radians` and the rotation matrices are not modelled, so the only point whose image under a rotation is known is the origin.
- `mat4 frame;` in `getCurrentCoordinateFrame` is taken to be the identity matrix (the GLM default constructor the code relies on).
- The capsule's orientation, computed from `normalize`, `cross`, `dot` and `degrees` at `character.hpp:213-220`, is not modelled; a capsule event records the bone length and bone vector only. Drawing itself (`Draw::line`, `Draw::capsule`, `Draw::axes`) is recorded, not rendered.
- Characters.Character.NextFrame: counts frames and keeps the skeleton; the pose it reads (root position, orientation, bone rotations, `animationFrame`, rewinding the file) lives in `character_impl.hpp`, which is not part of this model, so its contract leaves the pose unconstrained.
- Skeleton and motion parsing (`loadSkeleton`, `loadAnimation`, the `parse*` readers, `resetFile`, `Bone` construction, `addChild`, `readPose`, `RotationBounds`) and `hasAnimation` with its file stream: the constructor takes the skeleton and the initial pose as parameters.
- Characters.HasSkeletonIffRoots: assumes that the bone table indexes exactly the bones of the tree, since the code that fills it is in `character_impl.hpp`.
- Bones are values in a tree: bones shared between parents or cycles of `Bone*` pointers are not modelled, and `getCurrentLocalRotation()` is the bone's `localRotation` field.
- The OpenGL matrix stack has no depth limit here, and OpenGL errors are not modelled.
- `main.cpp` (window, camera, run loop and its speed-scaled playback) and `config.hpp` (file paths and constants) are not part of this model.

## Findings

| source | as written | input that shows it | evidently intended | confidence | as-written member | corrected member |
|---|---|---|---|---|---|---|
| vlad_4611_project_4/spline.hpp:46-58 | `t == maxTime` is not wrapped and counts all n points; a time wrapped below `minTime` counts none; `getValue`/`getDerivative` then read `points[n]` or `points[-1]` | points at times 1 and 2: t = 2 gives seg = 2, and t = 2.5 wraps to 0.5 and gives seg = 0 | bring t into [minTime, maxTime] and pick a segment 1..n-1, as the comment at spline.hpp:37-40 says | not executed | Splines.MaxTimeIsNotQueryable, Splines.BelowMinTimeIsNotQueryable, Splines.WrapBelowMinTimeExample | Splines.ClampedSegment, Splines.ClampedValue, Splines.ClampedValueAtEveryControlPoint, Splines.ClampedValueAgrees |
| vlad_4611_project_4/spline.hpp:103-125 | `getDerivative` never divides by the segment duration, so it returns d/d(rt), the duration times d/dt | points (0, (0,0,0), (1,0,0)) and (10, (15,0,0), (1,0,0)) at t = 5: returns (17.5,0,0) where d/dt is (1.75,0,0) | d/dt, as the comment at spline.hpp:31 promises | not executed | Splines.GetDerivativeIsDurationTimesVelocity, Splines.WrittenDerivativeAtKnot, Splines.ExampleCurveAtMidpoint | Splines.Velocity, Splines.VelocityIsTimeDerivative, Splines.VelocityAtControlPoints |
