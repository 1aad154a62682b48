/**
 * The fixed-function OpenGL matrix stack the drawing code works against
 * (glPushMatrix, glPopMatrix, glMultMatrixf, glTranslatef), together with the
 * drawing primitives it issues (Draw::line, Draw::capsule, Draw::axes).  The
 * primitives are not rendered: each is recorded, with the matrix current when
 * it was issued, in a log.  Pushes and pops are logged too.
 */
module MatrixStacks {
  import opened Vectors
  import opened Wrappers
  import opened Transforms

  /** What the drawing code issued, in order. */
  datatype Event =
    | Push
    | Pop
    | Line(frame: Transform, vector: Vec3)
    | Capsule(frame: Transform, length: real, vector: Vec3)
    | Axes(frame: Transform, size: real)

  class MatrixStack {
    /** The current modelview matrix. */
    var current: Transform
    /** The matrices saved by glPushMatrix, most recent last. */
    var saved: seq<Transform>
    /** Everything issued so far. */
    var log: seq<Event>

    constructor (initial: Transform)
      ensures current == initial && saved == [] && log == []
    {
      current := initial;
      saved := [];
      log := [];
    }

    /** glPushMatrix: saves a copy of the current matrix. */
    method PushMatrix()
      modifies this
      ensures current == old(current)
      ensures saved == old(saved) + [old(current)]
      ensures log == old(log) + [Push]
    {
      saved := saved + [current];
      log := log + [Push];
    }

    /** glPopMatrix: restores the most recently saved matrix (popping an empty stack is an OpenGL error). */
    method PopMatrix()
      requires |saved| > 0
      modifies this
      ensures current == old(saved[|saved| - 1])
      ensures saved == old(saved[..|saved| - 1])
      ensures log == old(log) + [Pop]
    {
      current := saved[|saved| - 1];
      saved := saved[..|saved| - 1];
      log := log + [Pop];
    }

    /** glMultMatrixf(m): post-multiplies the current matrix. */
    method MultMatrix(m: Transform)
      modifies this
      ensures current == Compose(old(current), m)
      ensures saved == old(saved) && log == old(log)
    {
      current := Compose(current, m);
    }

    /** glTranslatef(v.x, v.y, v.z). */
    method TranslateBy(v: Vec3)
      modifies this
      ensures current == Compose(old(current), Translate(v))
      ensures saved == old(saved) && log == old(log)
    {
      current := Compose(current, Translate(v));
    }

    /** Draw::line(v): a segment from the local origin to v. */
    method DrawLine(v: Vec3)
      modifies this
      ensures log == old(log) + [Line(current, v)]
      ensures current == old(current) && saved == old(saved)
    {
      log := log + [Line(current, v)];
    }

    /** Draw::capsule(length, v, ...): the bone's body along v. */
    method DrawCapsule(length: real, v: Vec3)
      modifies this
      ensures log == old(log) + [Capsule(current, length, v)]
      ensures current == old(current) && saved == old(saved)
    {
      log := log + [Capsule(current, length, v)];
    }

    /** Draw::axes(size): a small coordinate-axes marker at the local origin. */
    method DrawAxes(size: real)
      modifies this
      ensures log == old(log) + [Axes(current, size)]
      ensures current == old(current) && saved == old(saved)
    {
      log := log + [Axes(current, size)];
    }
  }

  /**
   * Replays a log against a stack of the given depth: the depth at the end, or
   * None when some Pop finds nothing saved.
   */
  function Replay(events: seq<Event>, depth: nat): Option<nat>
    decreases |events|
  {
    if |events| == 0 then Some(depth)
    else match events[0]
      case Push => Replay(events[1..], depth + 1)
      case Pop => if depth == 0 then None else Replay(events[1..], depth - 1)
      case _ => Replay(events[1..], depth)
  }

  /** Replaying two logs one after the other is replaying their concatenation. */
  lemma {:induction false} ReplayAppend(a: seq<Event>, b: seq<Event>, depth: nat)
    ensures Replay(a + b, depth) == (match Replay(a, depth) case None => None case Some(d) => Replay(b, d))
    decreases |a|
  {
    if |a| == 0 {
      assert a + b == b;
    } else {
      assert (a + b)[1..] == a[1..] + b;
      match a[0]
      case Push => ReplayAppend(a[1..], b, depth + 1);
      case Pop => if depth > 0 { ReplayAppend(a[1..], b, depth - 1); }
      case _ => ReplayAppend(a[1..], b, depth);
    }
  }

  /** A log is balanced when, from any depth, it never pops below it and ends back at it. */
  ghost predicate Balanced(events: seq<Event>) {
    forall depth: nat :: Replay(events, depth) == Some(depth)
  }

  /** Balanced logs concatenate to a balanced log. */
  lemma BalancedAppend(a: seq<Event>, b: seq<Event>)
    requires Balanced(a) && Balanced(b)
    ensures Balanced(a + b)
  {
    forall depth: nat
      ensures Replay(a + b, depth) == Some(depth)
    {
      ReplayAppend(a, b, depth);
      assert Replay(a, depth) == Some(depth);
      assert Replay(b, depth) == Some(depth);
    }
  }

  /** A balanced log between a push and a pop is balanced. */
  lemma BalancedBracket(a: seq<Event>)
    requires Balanced(a)
    ensures Balanced([Push] + a + [Pop])
  {
    forall depth: nat
      ensures Replay([Push] + a + [Pop], depth) == Some(depth)
    {
      ReplayAppend([Push], a + [Pop], depth);
      assert [Push] + a + [Pop] == [Push] + (a + [Pop]);
      assert Replay([Push], depth) == Some(depth + 1) by {
        assert [Push][1..] == [];
      }
      ReplayAppend(a, [Pop], depth + 1);
      assert Replay(a, depth + 1) == Some(depth + 1);
      assert Replay([Pop], depth + 1) == Some(depth) by {
        assert [Pop][1..] == [];
      }
    }
  }
}
