/**
 * The animated character: its playback clock, stepped in whole motion-capture
 * frames at 120 frames per second, its root coordinate frame, and the drawing
 * of its skeleton under that frame.
 */
module Characters {
  import opened Vectors
  import opened Wrappers
  import opened Transforms
  import opened MatrixStacks
  import opened Skeletons

  /** The frame rate of the motion-capture data. */
  const FramesPerSecond: real := 120.0

  /** C round: to the nearest integer, halfway cases away from zero. */
  function Round(x: real): (n: int)
    ensures 0.0 <= x ==> 0 <= n && x - 0.5 < n as real <= x + 0.5
    ensures x < 0.0 ==> n <= 0 && x - 0.5 <= n as real < x + 0.5
  {
    if 0.0 <= x then (x + 0.5).Floor else -((-x + 0.5).Floor)
  }

  /** The number of frames advance(dt) steps when the clock reads t: the frame indices in [round(120 t), round(120 (t + dt))). */
  function FramesCrossed(t: real, dt: real): nat {
    var f0 := Round(FramesPerSecond * t);
    var f1 := Round(FramesPerSecond * (t + dt));
    if f0 < f1 then f1 - f0 else 0
  }

  /** The primitives Character::draw issues when the current matrix is m. */
  function CharacterLog(roots: seq<Bone>, m: Transform, frame: Transform): seq<Event> {
    [Push] + ForestLog(roots, Compose(m, frame), |roots|) + [Pop]
  }

  class Character {
    /** Playback time in seconds. */
    var time: real
    /** How many times nextFrame has run: the number of frames read from the motion. */
    var framesStepped: nat
    /** Root position and orientation (degrees about x, y, z) of the current frame. */
    var position: Vec3
    var orientation: Vec3
    var basePosition: Vec3
    var baseVelocity: Vec3
    var rootNodeBones: seq<Bone>
    var boneTable: map<string, Bone>

    /**
     * The clock starts at zero with no frame read.  The skeleton and the
     * initial root pose, which the source reads from files, are parameters.
     */
    constructor (roots: seq<Bone>, table: map<string, Bone>, initialPosition: Vec3, initialOrientation: Vec3,
                 basePosition: Vec3, baseVelocity: Vec3)
      ensures time == 0.0 && framesStepped == 0
      ensures rootNodeBones == roots && boneTable == table
      ensures position == initialPosition && orientation == initialOrientation
      ensures this.basePosition == basePosition && this.baseVelocity == baseVelocity
      ensures InSync()
    {
      time := 0.0;
      framesStepped := 0;
      rootNodeBones := roots;
      boneTable := table;
      position := initialPosition;
      orientation := initialOrientation;
      this.basePosition := basePosition;
      this.baseVelocity := baseVelocity;
    }

    /** The frames read so far are the frames up to the clock. */
    ghost predicate InSync()
      reads this
    {
      framesStepped == Round(FramesPerSecond * time)
    }

    /** The skeleton a frame of motion leaves alone: its shape, the table's bone names and the base motion. */
    ghost predicate SkeletonKept(roots: seq<Bone>, names: set<string>, basePos: Vec3, baseVel: Vec3)
      reads this
    {
      SameShape(roots, rootNodeBones) && boneTable.Keys == names &&
      basePosition == basePos && baseVelocity == baseVel
    }

    /** The pose a frame of motion sets: the root position and orientation, and the bones with their rotations. */
    ghost predicate PoseIs(pos: Vec3, ori: Vec3, roots: seq<Bone>, table: map<string, Bone>)
      reads this
    {
      position == pos && orientation == ori && rootNodeBones == roots && boneTable == table
    }

    /**
     * nextFrame reads one frame of the motion: it counts the frame and poses
     * the root and each bone's local rotation, which the model leaves
     * unconstrained; the clock and the skeleton stay as they were.
     */
    method NextFrame()
      modifies this
      ensures framesStepped == old(framesStepped) + 1
      ensures time == old(time)
      ensures SkeletonKept(old(rootNodeBones), old(boneTable.Keys), old(basePosition), old(baseVelocity))
    {
      framesStepped := framesStepped + 1;
      SameShapeReflexive(rootNodeBones);
    }

    /** advance(dt): steps every frame index between the old and the new clock, then moves the clock by dt. */
    method Advance(dt: real)
      modifies this
      ensures time == old(time) + dt
      ensures framesStepped == old(framesStepped) + FramesCrossed(old(time), dt)
      ensures old(InSync()) && 0.0 <= dt ==> InSync()
      ensures SkeletonKept(old(rootNodeBones), old(boneTable.Keys), old(basePosition), old(baseVelocity))
      ensures HasSkeleton() == old(HasSkeleton())
      ensures FramesCrossed(old(time), dt) == 0 ==> PoseIs(old(position), old(orientation), old(rootNodeBones), old(boneTable))
    {
      var f0 := Round(FramesPerSecond * time);
      var f1 := Round(FramesPerSecond * (time + dt));
      var f := f0;
      SameShapeReflexive(rootNodeBones);
      while f < f1
        invariant f0 <= f && (f == f0 || f <= f1)
        invariant time == old(time)
        invariant framesStepped == old(framesStepped) + (f - f0)
        invariant SkeletonKept(old(rootNodeBones), old(boneTable.Keys), old(basePosition), old(baseVelocity))
        invariant f == f0 ==> PoseIs(old(position), old(orientation), old(rootNodeBones), old(boneTable))
      {
        ghost var roots := rootNodeBones;
        NextFrame();
        SameShapeTransitive(old(rootNodeBones), roots, rootNodeBones);
        f := f + 1;
      }
      assert f - f0 == FramesCrossed(time, dt);
      time := time + dt;
      if old(InSync()) && 0.0 <= dt {
        AdvanceKeepsSync(old(framesStepped), old(time), dt);
      }
    }

    /** getCurrentCoordinateFrame: the root translation, then rotations about z, y and x, in that order. */
    function CoordinateFrame(): (m: Transform)
      reads this
      ensures m == Compose(Translate(position), Compose(Rotate(orientation.z, ZAxis), Compose(Rotate(orientation.y, YAxis), Rotate(orientation.x, XAxis))))
    {
      var frame := Identity;
      var frame := Compose(frame, Translate(position));
      var frame := Compose(frame, Rotate(orientation.z, ZAxis));
      var frame := Compose(frame, Rotate(orientation.y, YAxis));
      Compose(frame, Rotate(orientation.x, XAxis))
    }

    /** getCurrentPosition: the root position, which is where the coordinate frame takes the origin. */
    function CurrentPosition(): (p: Vec3)
      reads this
      ensures TranslationColumn(CoordinateFrame()) == Some(p)
    {
      var r := Compose(Rotate(orientation.z, ZAxis), Compose(Rotate(orientation.y, YAxis), Rotate(orientation.x, XAxis)));
      assert RotationsOnly(r);
      TranslationColumnOfTranslateThenRotate(position, r);
      position
    }

    /** hasSkeleton: the bone table is not empty. */
    predicate HasSkeleton()
      reads this
    {
      boneTable != map[]
    }

    /**
     * Character::draw: under a push and a pop, multiplies by the coordinate
     * frame and draws the root bones in order.  The stack is left as it was.
     */
    method Draw(gl: MatrixStack)
      modifies gl
      ensures gl.current == old(gl.current) && gl.saved == old(gl.saved)
      ensures gl.log == old(gl.log) + CharacterLog(rootNodeBones, old(gl.current), CoordinateFrame())
    {
      var frame := CoordinateFrame();
      gl.PushMatrix();
      gl.MultMatrix(frame);
      ghost var entry := Compose(old(gl.current), frame);
      var i := 0;
      while i < |rootNodeBones|
        invariant 0 <= i <= |rootNodeBones|
        invariant gl.current == entry
        invariant gl.saved == old(gl.saved) + [old(gl.current)]
        invariant gl.log == old(gl.log) + [Push] + ForestLog(rootNodeBones, entry, i)
      {
        DrawBone(gl, rootNodeBones[i]);
        i := i + 1;
      }
      gl.PopMatrix();
    }
  }

  // ---------------------------------------------------------------------------
  // The playback clock

  lemma RoundMonotone(x: real, y: real)
    requires x <= y
    ensures Round(x) <= Round(y)
  {
  }

  /** A non-positive dt steps no frame: playback never rewinds. */
  lemma AdvanceNeverRewinds(t: real, dt: real)
    requires dt <= 0.0
    ensures FramesCrossed(t, dt) == 0
  {
    RoundMonotone(FramesPerSecond * (t + dt), FramesPerSecond * t);
  }

  /** Forward steps telescope: advancing by dt1 then dt2 steps as many frames as advancing by dt1 + dt2. */
  lemma AdvanceComposes(t: real, dt1: real, dt2: real)
    requires 0.0 <= dt1 && 0.0 <= dt2
    ensures FramesCrossed(t, dt1) + FramesCrossed(t + dt1, dt2) == FramesCrossed(t, dt1 + dt2)
  {
    RoundMonotone(FramesPerSecond * t, FramesPerSecond * (t + dt1));
    RoundMonotone(FramesPerSecond * (t + dt1), FramesPerSecond * (t + dt1 + dt2));
    assert t + (dt1 + dt2) == t + dt1 + dt2;
  }

  /** A forward step from a synchronised clock lands on a synchronised clock. */
  lemma AdvanceKeepsSync(n: int, t: real, dt: real)
    requires n == Round(FramesPerSecond * t) && 0.0 <= dt
    ensures n + FramesCrossed(t, dt) == Round(FramesPerSecond * (t + dt))
  {
    RoundMonotone(FramesPerSecond * t, FramesPerSecond * (t + dt));
  }

  // ---------------------------------------------------------------------------
  // Drawing the character

  /** Character::draw pushes exactly as often as it pops, and never pops what it did not push. */
  lemma CharacterLogBalanced(roots: seq<Bone>, m: Transform, frame: Transform)
    ensures Balanced(CharacterLog(roots, m, frame))
  {
    ForestLogBalanced(roots, Compose(m, frame), |roots|);
    BalancedBracket(ForestLog(roots, Compose(m, frame), |roots|));
  }

  /**
   * Every bone of the skeleton is drawn once, in preorder with children in
   * vector order, each root under the current matrix times the coordinate frame.
   */
  lemma CharacterLines(roots: seq<Bone>, m: Transform, frame: Transform)
    ensures AllValid(roots, Paths(roots, |roots|))
    ensures Lines(CharacterLog(roots, m, frame)) == LinesAlong(roots, Compose(m, frame), Paths(roots, |roots|))
  {
    var body := ForestLog(roots, Compose(m, frame), |roots|);
    LinesArePreorder(roots, Compose(m, frame), |roots|);
    LinesAppend([Push] + body, [Pop]);
    LinesAppend([Push], body);
    LinesOfOne(Push);
    LinesOfOne(Pop);
  }

  /** Playback keeps the bone table indexing the tree: a skeleton of the same shape has the same names. */
  lemma IndexSurvivesPlayback(roots: seq<Bone>, table: map<string, Bone>, roots': seq<Bone>, table': map<string, Bone>)
    requires table.Keys == Names(roots, |roots|)
    requires SameShape(roots, roots') && table'.Keys == table.Keys
    ensures table'.Keys == Names(roots', |roots'|)
  {
    SameShapeNames(roots, roots', |roots|);
  }

  /** When the bone table indexes the bones of the tree, hasSkeleton holds exactly when there is a root bone. */
  lemma HasSkeletonIffRoots(c: Character)
    requires c.boneTable.Keys == Names(c.rootNodeBones, |c.rootNodeBones|)
    ensures c.HasSkeleton() <==> |c.rootNodeBones| > 0
  {
    NamesEmpty(c.rootNodeBones);
    if c.boneTable == map[] {
      assert c.boneTable.Keys == {};
    }
  }
}
