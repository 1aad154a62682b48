/**
 * Bones and their drawing.  A bone is a value: its name, length and unit
 * direction, the local rotation getCurrentLocalRotation returns for the
 * current pose, and its children.  Drawing a bone pushes the matrix stack,
 * applies the local rotation, draws the bone along its bone vector, moves the
 * origin to the bone's end, draws the children there and pops.
 */
module Skeletons {
  import opened Vectors
  import opened Wrappers
  import opened Transforms
  import opened MatrixStacks

  datatype Bone = Bone(name: string, length: real, direction: Vec3, localRotation: Transform, children: seq<Bone>)

  /** Size of the axes marker drawn at the end of every bone. */
  const AxesSize: real := 0.05

  /** getBoneVector: the bone's direction scaled to its length. */
  function BoneVector(b: Bone): Vec3 {
    Scale(b.length, b.direction)
  }

  lemma SquareOfProduct(a: real, c: real)
    ensures (a * c) * (a * c) == a * a * (c * c)
  {
  }

  lemma ProductIsZero(a: real, c: real)
    ensures a * c == 0.0 <==> a == 0.0 || c == 0.0
  {
  }

  /** The bone vector is as long as the bone when the direction is a unit vector, and vanishes only for a zero length or direction. */
  lemma BoneVectorLength(b: Bone)
    ensures NormSq(BoneVector(b)) == b.length * b.length * NormSq(b.direction)
    ensures BoneVector(b) == Zero <==> b.length == 0.0 || b.direction == Zero
  {
    var d := b.direction;
    SquareOfProduct(b.length, d.x);
    SquareOfProduct(b.length, d.y);
    SquareOfProduct(b.length, d.z);
    ProductIsZero(b.length, d.x);
    ProductIsZero(b.length, d.y);
    ProductIsZero(b.length, d.z);
  }

  /** The matrix a bone's line and capsule are drawn under, when the bone is entered under f. */
  function BoneFrame(b: Bone, f: Transform): Transform {
    Compose(f, b.localRotation)
  }

  /** The matrix the bone's axes marker and its children are drawn under: the origin moved to the bone's end. */
  function TipFrame(b: Bone, f: Transform): Transform {
    Compose(BoneFrame(b, f), Translate(BoneVector(b)))
  }

  /** The primitives Bone::draw issues, entered under f: push, the bone, the subtree, pop. */
  function BoneLog(b: Bone, f: Transform): seq<Event>
    decreases b
  {
    var v := BoneVector(b);
    [Push]
    + ([Line(BoneFrame(b, f), v), Capsule(BoneFrame(b, f), b.length, v), Axes(TipFrame(b, f), AxesSize)]
       + ForestLog(b.children, TipFrame(b, f), |b.children|))
    + [Pop]
  }

  /** The primitives issued by drawing the first k bones of a sequence in order, all entered under f. */
  function ForestLog(bones: seq<Bone>, f: Transform, k: nat): seq<Event>
    requires k <= |bones|
    decreases bones, k
  {
    if k == 0 then [] else ForestLog(bones, f, k - 1) + BoneLog(bones[k - 1], f)
  }

  /**
   * Bone::draw.  It leaves the matrix stack as it found it and issues exactly
   * BoneLog(b, current matrix).  The capsule's rotation axis and angle are not modelled.
   */
  method DrawBone(gl: MatrixStack, b: Bone)
    modifies gl
    ensures gl.current == old(gl.current) && gl.saved == old(gl.saved)
    ensures gl.log == old(gl.log) + BoneLog(b, old(gl.current))
    decreases b
  {
    var v := BoneVector(b);
    gl.PushMatrix();
    gl.MultMatrix(b.localRotation);
    gl.DrawLine(v);
    gl.DrawCapsule(b.length, v);
    gl.TranslateBy(v);
    gl.DrawAxes(AxesSize);
    ghost var entry := old(gl.current);
    ghost var tip := TipFrame(b, entry);
    ghost var head := old(gl.log) + [Push]
      + [Line(BoneFrame(b, entry), v), Capsule(BoneFrame(b, entry), b.length, v), Axes(tip, AxesSize)];
    assert gl.log == head;
    var i := 0;
    while i < |b.children|
      invariant 0 <= i <= |b.children|
      invariant gl.current == tip
      invariant gl.saved == old(gl.saved) + [entry]
      invariant gl.log == head + ForestLog(b.children, tip, i)
    {
      DrawBone(gl, b.children[i]);
      i := i + 1;
    }
    gl.PopMatrix();
    assert gl.log == old(gl.log) + BoneLog(b, entry);
  }

  // ---------------------------------------------------------------------------
  // Stack balance

  lemma DrawingsBalanced(a: Event, b: Event, c: Event)
    requires !a.Push? && !a.Pop? && !b.Push? && !b.Pop? && !c.Push? && !c.Pop?
    ensures Balanced([a, b, c])
  {
    forall depth: nat
      ensures Replay([a, b, c], depth) == Some(depth)
    {
      assert [a, b, c][1..] == [b, c];
      assert [b, c][1..] == [c];
      assert [c][1..] == [];
      assert Replay([c], depth) == Some(depth);
      assert Replay([b, c], depth) == Some(depth);
    }
  }

  /** Every push a bone's drawing issues is matched by a pop. */
  lemma {:induction false} BoneLogBalanced(b: Bone, f: Transform)
    ensures Balanced(BoneLog(b, f))
    decreases b
  {
    var v := BoneVector(b);
    var body := [Line(BoneFrame(b, f), v), Capsule(BoneFrame(b, f), b.length, v), Axes(TipFrame(b, f), AxesSize)];
    DrawingsBalanced(body[0], body[1], body[2]);
    assert body == [body[0], body[1], body[2]];
    ForestLogBalanced(b.children, TipFrame(b, f), |b.children|);
    BalancedAppend(body, ForestLog(b.children, TipFrame(b, f), |b.children|));
    BalancedBracket(body + ForestLog(b.children, TipFrame(b, f), |b.children|));
  }

  lemma {:induction false} ForestLogBalanced(bones: seq<Bone>, f: Transform, k: nat)
    requires k <= |bones|
    ensures Balanced(ForestLog(bones, f, k))
    decreases bones, k
  {
    if k == 0 {
      forall depth: nat
        ensures Replay([], depth) == Some(depth)
      {
      }
    } else {
      ForestLogBalanced(bones, f, k - 1);
      BoneLogBalanced(bones[k - 1], f);
      BalancedAppend(ForestLog(bones, f, k - 1), BoneLog(bones[k - 1], f));
    }
  }

  // ---------------------------------------------------------------------------
  // Bones named by index paths

  /** p names a bone: p[0] indexes bones, the rest indexes that bone's subtree. */
  predicate ValidPath(bones: seq<Bone>, p: seq<nat>)
    decreases |p|
  {
    |p| >= 1 && p[0] < |bones| && (|p| == 1 || ValidPath(bones[p[0]].children, p[1..]))
  }

  function BoneAt(bones: seq<Bone>, p: seq<nat>): Bone
    requires ValidPath(bones, p)
    decreases |p|
  {
    if |p| == 1 then bones[p[0]] else BoneAt(bones[p[0]].children, p[1..])
  }

  /** The matrix the bone at p is entered under when the forest is drawn under f. */
  function EntryFrame(bones: seq<Bone>, f: Transform, p: seq<nat>): Transform
    requires ValidPath(bones, p)
    decreases |p|
  {
    if |p| == 1 then f else EntryFrame(bones[p[0]].children, TipFrame(bones[p[0]], f), p[1..])
  }

  /**
   * The composition rule: a root bone is entered under the forest's matrix, and
   * the j-th child of the bone at p under that bone's tip matrix, that is the
   * parent's entry matrix times its local rotation times the translation by its bone vector.
   */
  lemma {:induction false} ChildEntryFrame(bones: seq<Bone>, f: Transform, p: seq<nat>, j: nat)
    requires ValidPath(bones, p) && j < |BoneAt(bones, p).children|
    ensures ValidPath(bones, p + [j])
    ensures BoneAt(bones, p + [j]) == BoneAt(bones, p).children[j]
    ensures EntryFrame(bones, f, p + [j])
         == Compose(Compose(EntryFrame(bones, f, p), BoneAt(bones, p).localRotation), Translate(BoneVector(BoneAt(bones, p))))
    decreases |p|
  {
    var q := p + [j];
    assert q[0] == p[0];
    if |p| == 1 {
      assert q[1..] == [j];
    } else {
      assert q[1..] == p[1..] + [j];
      ChildEntryFrame(bones[p[0]].children, TipFrame(bones[p[0]], f), p[1..], j);
    }
  }

  lemma RootEntryFrame(bones: seq<Bone>, f: Transform, i: nat)
    requires i < |bones|
    ensures ValidPath(bones, [i]) && BoneAt(bones, [i]) == bones[i] && EntryFrame(bones, f, [i]) == f
  {
  }

  // ---------------------------------------------------------------------------
  // The visiting order

  /** Each path of ps with i put in front. */
  function Under(i: nat, ps: seq<seq<nat>>): (r: seq<seq<nat>>)
    ensures |r| == |ps|
    ensures forall j :: 0 <= j < |ps| ==> r[j] == [i] + ps[j]
  {
    if |ps| == 0 then [] else [[i] + ps[0]] + Under(i, ps[1..])
  }

  /**
   * The paths of the bones of the first k trees in preorder: each bone before
   * its subtree, siblings in vector order.
   */
  function Paths(bones: seq<Bone>, k: nat): seq<seq<nat>>
    requires k <= |bones|
    decreases bones, k
  {
    if k == 0 then []
    else Paths(bones, k - 1) + [[k - 1]] + Under(k - 1, Paths(bones[k - 1].children, |bones[k - 1].children|))
  }

  lemma UnderMembership(i: nat, ps: seq<seq<nat>>, p: seq<nat>)
    ensures p in Under(i, ps) <==> |p| >= 1 && p[0] == i && p[1..] in ps
  {
    if p in Under(i, ps) {
      var j :| 0 <= j < |ps| && Under(i, ps)[j] == p;
      assert p[1..] == ps[j];
    }
    if |p| >= 1 && p[0] == i && p[1..] in ps {
      var j :| 0 <= j < |ps| && ps[j] == p[1..];
      assert p == [i] + ps[j];
      assert Under(i, ps)[j] == p;
    }
  }

  /** Exactly the bones of the first k trees are visited. */
  lemma {:induction false} PathsExact(bones: seq<Bone>, k: nat, p: seq<nat>)
    requires k <= |bones|
    ensures p in Paths(bones, k) <==> ValidPath(bones, p) && p[0] < k
    decreases bones, k
  {
    if k > 0 {
      var c := bones[k - 1].children;
      var front := Paths(bones, k - 1);
      var inner := Paths(c, |c|);
      assert p in Paths(bones, k) <==> p in front || p == [k - 1] || p in Under(k - 1, inner);
      PathsExact(bones, k - 1, p);
      UnderMembership(k - 1, inner, p);
      if |p| == 0 {
      } else if p[0] != k - 1 {
      } else if |p| == 1 {
        assert p == [k - 1];
      } else {
        PathsExact(c, |c|, p[1..]);
        assert ValidPath(bones, p) <==> ValidPath(c, p[1..]);
        assert p != [k - 1];
      }
    }
  }

  lemma PathsValid(bones: seq<Bone>, k: nat)
    requires k <= |bones|
    ensures AllValid(bones, Paths(bones, k))
  {
    forall p | p in Paths(bones, k)
      ensures ValidPath(bones, p)
    {
      PathsExact(bones, k, p);
    }
  }

  ghost predicate NoDuplicates<T>(s: seq<T>) {
    forall i, j :: 0 <= i < j < |s| ==> s[i] != s[j]
  }

  /** No element of a is in b. */
  ghost predicate Disjoint<T>(a: seq<T>, b: seq<T>) {
    forall x :: x in a ==> x !in b
  }

  lemma NoDuplicatesAppend<T>(a: seq<T>, b: seq<T>)
    requires NoDuplicates(a) && NoDuplicates(b)
    requires Disjoint(a, b)
    ensures NoDuplicates(a + b)
  {
    forall i, j | 0 <= i < j < |a + b|
      ensures (a + b)[i] != (a + b)[j]
    {
      if i < |a| <= j {
        assert (a + b)[i] in a;
        assert (a + b)[j] in b;
      }
    }
  }

  lemma {:induction false} UnderNoDuplicates(i: nat, ps: seq<seq<nat>>)
    requires NoDuplicates(ps)
    ensures NoDuplicates(Under(i, ps))
  {
    var r := Under(i, ps);
    forall a, b | 0 <= a < b < |r|
      ensures r[a] != r[b]
    {
      assert r[a][1..] == ps[a];
      assert r[b][1..] == ps[b];
    }
  }

  /** No bone is visited twice. */
  lemma {:induction false} PathsDistinct(bones: seq<Bone>, k: nat)
    requires k <= |bones|
    ensures NoDuplicates(Paths(bones, k))
    decreases bones, k
  {
    if k > 0 {
      var c := bones[k - 1].children;
      var front := Paths(bones, k - 1);
      var sub := Under(k - 1, Paths(c, |c|));
      PathsDistinct(bones, k - 1);
      PathsDistinct(c, |c|);
      UnderNoDuplicates(k - 1, Paths(c, |c|));
      PathsDisjoint(bones, k);
      NoDuplicatesAppend(front, [[k - 1]]);
      NoDuplicatesAppend(front + [[k - 1]], sub);
      assert Paths(bones, k) == front + [[k - 1]] + sub;
    }
  }

  /** The three parts of Paths(bones, k) share no path: they start below k - 1, are [k - 1], or are longer and start with k - 1. */
  lemma PathsDisjoint(bones: seq<Bone>, k: nat)
    requires 0 < k <= |bones|
    ensures Disjoint(Paths(bones, k - 1), [[k - 1]])
    ensures Disjoint(Paths(bones, k - 1) + [[k - 1]], Under(k - 1, Paths(bones[k - 1].children, |bones[k - 1].children|)))
  {
    var c := bones[k - 1].children;
    var front := Paths(bones, k - 1);
    var sub := Under(k - 1, Paths(c, |c|));
    forall p | p in front + [[k - 1]]
      ensures p in front ==> p !in [[k - 1]]
      ensures p !in sub
    {
      UnderMembership(k - 1, Paths(c, |c|), p);
      if p in front {
        PathsExact(bones, k - 1, p);
      } else {
        assert p == [k - 1];
        if p in sub {
          PathsExact(c, |c|, p[1..]);
        }
      }
    }
  }

  // ---------------------------------------------------------------------------
  // The lines drawn, in order

  /** The Line events of a log, in order: one per bone drawn. */
  function Lines(events: seq<Event>): seq<Event>
    decreases |events|
  {
    if |events| == 0 then []
    else (if events[0].Line? then [events[0]] else []) + Lines(events[1..])
  }

  lemma {:induction false} LinesAppend(a: seq<Event>, b: seq<Event>)
    ensures Lines(a + b) == Lines(a) + Lines(b)
    decreases |a|
  {
    if |a| == 0 {
      assert a + b == b;
    } else {
      var head := if a[0].Line? then [a[0]] else [];
      assert (a + b)[0] == a[0];
      assert (a + b)[1..] == a[1..] + b;
      assert Lines(a + b) == head + Lines(a[1..] + b);
      LinesAppend(a[1..], b);
      assert Lines(a) == head + Lines(a[1..]);
    }
  }

  /** The line the bone at p is drawn as, when the forest is drawn under f. */
  function LineAt(bones: seq<Bone>, f: Transform, p: seq<nat>): Event
    requires ValidPath(bones, p)
  {
    Line(BoneFrame(BoneAt(bones, p), EntryFrame(bones, f, p)), BoneVector(BoneAt(bones, p)))
  }

  /** Every path of ps names a bone. */
  predicate AllValid(bones: seq<Bone>, ps: seq<seq<nat>>) {
    forall p :: p in ps ==> ValidPath(bones, p)
  }

  /** The lines of the bones at ps, in the order of ps. */
  function LinesAlong(bones: seq<Bone>, f: Transform, ps: seq<seq<nat>>): seq<Event>
    requires AllValid(bones, ps)
  {
    if |ps| == 0 then [] else [LineAt(bones, f, ps[0])] + LinesAlong(bones, f, ps[1..])
  }

  lemma {:induction false} LinesAlongAppend(bones: seq<Bone>, f: Transform, a: seq<seq<nat>>, b: seq<seq<nat>>)
    requires AllValid(bones, a + b)
    ensures LinesAlong(bones, f, a + b) == LinesAlong(bones, f, a) + LinesAlong(bones, f, b)
    decreases |a|
  {
    if |a| == 0 {
      assert a + b == b;
    } else {
      assert (a + b)[1..] == a[1..] + b;
      LinesAlongAppend(bones, f, a[1..], b);
    }
  }

  /** Lines of paths under bones[i] are the lines of the subtree drawn under bones[i]'s tip. */
  lemma {:induction false} LinesAlongUnder(bones: seq<Bone>, f: Transform, i: nat, ps: seq<seq<nat>>)
    requires i < |bones|
    requires AllValid(bones[i].children, ps)
    ensures AllValid(bones, Under(i, ps))
    ensures LinesAlong(bones, f, Under(i, ps)) == LinesAlong(bones[i].children, TipFrame(bones[i], f), ps)
    decreases |ps|
  {
    forall p | p in Under(i, ps)
      ensures ValidPath(bones, p)
    {
      UnderMembership(i, ps, p);
    }
    if |ps| > 0 {
      var q := [i] + ps[0];
      assert q[1..] == ps[0];
      assert ValidPath(bones[i].children, ps[0]);
      assert Under(i, ps)[0] == q;
      assert BoneAt(bones, q) == BoneAt(bones[i].children, ps[0]);
      assert EntryFrame(bones, f, q) == EntryFrame(bones[i].children, TipFrame(bones[i], f), ps[0]);
      assert Under(i, ps)[1..] == Under(i, ps[1..]);
      LinesAlongUnder(bones, f, i, ps[1..]);
    }
  }

  lemma LinesOfOne(e: Event)
    ensures Lines([e]) == if e.Line? then [e] else []
  {
    assert [e][1..] == [];
  }

  /** A bone's own line comes first among the lines of its drawing, then its subtree's. */
  lemma BoneLines(b: Bone, f: Transform)
    ensures Lines(BoneLog(b, f))
         == [Line(BoneFrame(b, f), BoneVector(b))] + Lines(ForestLog(b.children, TipFrame(b, f), |b.children|))
  {
    var v := BoneVector(b);
    var tip := TipFrame(b, f);
    var sub := ForestLog(b.children, tip, |b.children|);
    var body := [Line(BoneFrame(b, f), v), Capsule(BoneFrame(b, f), b.length, v), Axes(tip, AxesSize)];
    assert BoneLog(b, f) == [Push] + (body + sub) + [Pop];
    LinesAppend([Push] + (body + sub), [Pop]);
    LinesAppend([Push], body + sub);
    LinesAppend(body, sub);
    assert body == [body[0]] + [body[1]] + [body[2]];
    LinesAppend([body[0]] + [body[1]], [body[2]]);
    LinesAppend([body[0]], [body[1]]);
    LinesOfOne(body[0]);
    LinesOfOne(body[1]);
    LinesOfOne(body[2]);
    LinesOfOne(Push);
    LinesOfOne(Pop);
  }

  /** The preorder lines of the first k trees: those of the first k - 1, then tree k - 1's root, then its subtree's. */
  lemma PathsLines(bones: seq<Bone>, f: Transform, k: nat)
    requires 0 < k <= |bones|
    ensures AllValid(bones, Paths(bones, k)) && AllValid(bones, Paths(bones, k - 1))
    ensures AllValid(bones[k - 1].children, Paths(bones[k - 1].children, |bones[k - 1].children|))
    ensures LinesAlong(bones, f, Paths(bones, k))
         == LinesAlong(bones, f, Paths(bones, k - 1))
          + [Line(BoneFrame(bones[k - 1], f), BoneVector(bones[k - 1]))]
          + LinesAlong(bones[k - 1].children, TipFrame(bones[k - 1], f), Paths(bones[k - 1].children, |bones[k - 1].children|))
  {
    var c := bones[k - 1].children;
    var front := Paths(bones, k - 1);
    var inner := Paths(c, |c|);
    PathsValid(bones, k);
    PathsValid(bones, k - 1);
    PathsValid(c, |c|);
    LinesAlongUnder(bones, f, k - 1, inner);
    LinesAlongAppend(bones, f, front + [[k - 1]], Under(k - 1, inner));
    LinesAlongAppend(bones, f, front, [[k - 1]]);
    assert LinesAlong(bones, f, [[k - 1]]) == [LineAt(bones, f, [k - 1])];
  }

  /** One step of the preorder: if the first k - 1 trees and tree k - 1's subtree draw their lines in preorder, so do the first k trees. */
  lemma PreorderStep(bones: seq<Bone>, f: Transform, k: nat)
    requires 0 < k <= |bones|
    requires AllValid(bones, Paths(bones, k - 1))
    requires Lines(ForestLog(bones, f, k - 1)) == LinesAlong(bones, f, Paths(bones, k - 1))
    requires AllValid(bones[k - 1].children, Paths(bones[k - 1].children, |bones[k - 1].children|))
    requires Lines(ForestLog(bones[k - 1].children, TipFrame(bones[k - 1], f), |bones[k - 1].children|))
          == LinesAlong(bones[k - 1].children, TipFrame(bones[k - 1], f), Paths(bones[k - 1].children, |bones[k - 1].children|))
    ensures AllValid(bones, Paths(bones, k))
    ensures Lines(ForestLog(bones, f, k)) == LinesAlong(bones, f, Paths(bones, k))
  {
    var b := bones[k - 1];
    var tip := TipFrame(b, f);
    var front := ForestLog(bones, f, k - 1);
    var sub := ForestLog(b.children, tip, |b.children|);
    assert ForestLog(bones, f, k) == front + BoneLog(b, f);
    PathsLines(bones, f, k);
    BoneLines(b, f);
    LinesAppend(front, BoneLog(b, f));
    calc {
      Lines(ForestLog(bones, f, k));
      Lines(front) + Lines(BoneLog(b, f));
      Lines(front) + ([Line(BoneFrame(b, f), BoneVector(b))] + Lines(sub));
      LinesAlong(bones, f, Paths(bones, k - 1)) + ([Line(BoneFrame(b, f), BoneVector(b))] + LinesAlong(b.children, tip, Paths(b.children, |b.children|)));
      LinesAlong(bones, f, Paths(bones, k));
    }
  }

  /**
   * Drawing the first k trees issues one line per bone, in preorder, each under
   * the matrix the composition rule gives its path.
   */
  lemma {:induction false} LinesArePreorder(bones: seq<Bone>, f: Transform, k: nat)
    requires k <= |bones|
    ensures AllValid(bones, Paths(bones, k))
    ensures Lines(ForestLog(bones, f, k)) == LinesAlong(bones, f, Paths(bones, k))
    decreases bones, k
  {
    if k == 0 {
      PathsValid(bones, k);
    } else {
      var b := bones[k - 1];
      LinesArePreorder(bones, f, k - 1);
      LinesArePreorder(b.children, TipFrame(b, f), |b.children|);
      PreorderStep(bones, f, k);
    }
  }

  // ---------------------------------------------------------------------------
  // Names

  /** The names of the bones of the first k trees. */
  function Names(bones: seq<Bone>, k: nat): set<string>
    requires k <= |bones|
    decreases bones, k
  {
    if k == 0 then {}
    else Names(bones, k - 1) + {bones[k - 1].name} + Names(bones[k - 1].children, |bones[k - 1].children|)
  }

  /** A forest has a named bone exactly when it has a tree. */
  lemma {:induction false} NamesEmpty(bones: seq<Bone>)
    ensures Names(bones, |bones|) == {} <==> |bones| == 0
  {
    if |bones| > 0 {
      assert bones[|bones| - 1].name in Names(bones, |bones|);
    }
  }

  // ---------------------------------------------------------------------------
  // Shape: everything a frame of motion leaves alone

  /**
   * Two forests with the same bones in the same places: names, lengths,
   * directions and children agree tree by tree; only the local rotations,
   * which each frame of motion sets, may differ.
   */
  predicate SameShape(a: seq<Bone>, b: seq<Bone>)
    decreases a
  {
    |a| == |b| &&
    forall i :: 0 <= i < |a| ==>
      a[i].name == b[i].name && a[i].length == b[i].length && a[i].direction == b[i].direction &&
      SameShape(a[i].children, b[i].children)
  }

  lemma {:induction false} SameShapeReflexive(a: seq<Bone>)
    ensures SameShape(a, a)
    decreases a
  {
    forall i | 0 <= i < |a|
      ensures SameShape(a[i].children, a[i].children)
    {
      SameShapeReflexive(a[i].children);
    }
  }

  lemma {:induction false} SameShapeTransitive(a: seq<Bone>, b: seq<Bone>, c: seq<Bone>)
    requires SameShape(a, b) && SameShape(b, c)
    ensures SameShape(a, c)
    decreases a
  {
    forall i | 0 <= i < |a|
      ensures SameShape(a[i].children, c[i].children)
    {
      SameShapeTransitive(a[i].children, b[i].children, c[i].children);
    }
  }

  /** Forests of the same shape carry the same bone names, so a table indexing one indexes the other. */
  lemma {:induction false} SameShapeNames(a: seq<Bone>, b: seq<Bone>, k: nat)
    requires SameShape(a, b) && k <= |a|
    ensures Names(a, k) == Names(b, k)
    decreases a, k
  {
    if k > 0 {
      SameShapeNames(a, b, k - 1);
      assert SameShape(a[k - 1].children, b[k - 1].children);
      SameShapeNames(a[k - 1].children, b[k - 1].children, |a[k - 1].children|);
    }
  }
}
