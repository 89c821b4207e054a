/**
 * The part of the rendering library's scene that mesh replacement relies on: a flat list of
 * named objects, looked up by name, removed by identity and appended to.
 */
module SceneGraph {

  /** A scene object: a name, its geometry's position buffer, and whether geometry and material were released. */
  class Object3D {
    const name: string
    const positions: array<real>
    var geometryDisposed: bool
    var materialDisposed: bool

    constructor (name: string, positions: array<real>)
      ensures this.name == name && this.positions == positions
      ensures !geometryDisposed && !materialDisposed
    {
      this.name := name;
      this.positions := positions;
      geometryDisposed := false;
      materialDisposed := false;
    }

    /** `geometry.dispose()`: releases the geometry's buffers. */
    method DisposeGeometry()
      modifies this
      ensures geometryDisposed && materialDisposed == old(materialDisposed)
    {
      geometryDisposed := true;
    }

    /** `material.dispose()`: releases the material. */
    method DisposeMaterial()
      modifies this
      ensures materialDisposed && geometryDisposed == old(geometryDisposed)
    {
      materialDisposed := true;
    }
  }

  /** The position of the first occurrence of `o` in `s`, or -1 (`Array.prototype.indexOf`). */
  function IndexOf(s: seq<Object3D>, o: Object3D): (i: int)
    ensures -1 <= i < |s|
    ensures i == -1 <==> o !in s
    ensures 0 <= i ==> s[i] == o && o !in s[..i]
  {
    if |s| == 0 then -1
    else if s[0] == o then 0
    else
      var j := IndexOf(s[1..], o);
      assert s[1..][..j + 1] == s[1..j + 2];
      if j == -1 then -1 else j + 1
  }

  /** The position of the first object named `name` in `s`, or -1. */
  function FirstNamed(s: seq<Object3D>, name: string): (i: int)
    ensures -1 <= i < |s|
    ensures i == -1 <==> forall j :: 0 <= j < |s| ==> s[j].name != name
    ensures 0 <= i ==> s[i].name == name && forall j :: 0 <= j < i ==> s[j].name != name
  {
    if |s| == 0 then -1
    else if s[0].name == name then 0
    else
      var j := FirstNamed(s[1..], name);
      if j == -1 then -1 else j + 1
  }

  /** How many objects of `s` are named `name`. */
  function CountNamed(s: seq<Object3D>, name: string): nat
  {
    if |s| == 0 then 0
    else CountNamed(s[..|s| - 1], name) + (if s[|s| - 1].name == name then 1 else 0)
  }

  /** `s` with its `i`-th element spliced out. */
  function Without(s: seq<Object3D>, i: int): seq<Object3D>
    requires 0 <= i < |s|
  {
    s[..i] + s[i + 1..]
  }

  /** `s` with the first occurrence of `o` spliced out, if there is one. */
  function RemoveFirst(s: seq<Object3D>, o: Object3D): seq<Object3D>
  {
    var i := IndexOf(s, o);
    if i < 0 then s else Without(s, i)
  }

  /** Counting by name distributes over concatenation. */
  lemma {:induction false} CountNamedConcat(a: seq<Object3D>, b: seq<Object3D>, name: string)
    ensures CountNamed(a + b, name) == CountNamed(a, name) + CountNamed(b, name)
    decreases |b|
  {
    if |b| == 0 {
      assert a + b == a;
    } else {
      var b' := b[..|b| - 1];
      assert (a + b)[..|a + b| - 1] == a + b';
      CountNamedConcat(a, b', name);
    }
  }

  /** No object carries the name exactly when the count is zero. */
  lemma {:induction false} CountNamedZero(s: seq<Object3D>, name: string)
    ensures CountNamed(s, name) == 0 <==> forall j :: 0 <= j < |s| ==> s[j].name != name
  {
    if |s| > 0 {
      CountNamedZero(s[..|s| - 1], name);
    }
  }

  /** Splicing out element `i` lowers the count of its name by one and leaves other names alone. */
  lemma CountNamedWithout(s: seq<Object3D>, i: int, name: string)
    requires 0 <= i < |s|
    ensures CountNamed(Without(s, i), name) + (if s[i].name == name then 1 else 0) == CountNamed(s, name)
  {
    assert s == s[..i] + ([s[i]] + s[i + 1..]);
    CountNamedConcat(s[..i], [s[i]] + s[i + 1..], name);
    CountNamedConcat([s[i]], s[i + 1..], name);
    CountNamedConcat(s[..i], s[i + 1..], name);
    assert CountNamed([s[i]], name) == if s[i].name == name then 1 else 0 by {
      assert [s[i]][..0] == [];
    }
  }

  /**
   * Replacing by name: remove the first object named `name` (if any), then append a new
   * object of that name. The count of that name becomes 1 if it was 0 and is otherwise kept,
   * so a scene with at most one such object ends with exactly one.
   */
  lemma {:induction false} ReplacementCount(s: seq<Object3D>, mesh: Object3D, name: string)
    requires mesh.name == name
    ensures var i := FirstNamed(s, name);
            var kept := if i < 0 then s else Without(s, i);
            CountNamed(kept + [mesh], name) == if CountNamed(s, name) == 0 then 1 else CountNamed(s, name)
  {
    var i := FirstNamed(s, name);
    assert CountNamed([mesh], name) == 1 by {
      assert [mesh][..0] == [];
    }
    if i < 0 {
      CountNamedZero(s, name);
      CountNamedConcat(s, [mesh], name);
    } else {
      var kept := Without(s, i);
      CountNamedWithout(s, i, name);
      CountNamedConcat(kept, [mesh], name);
    }
  }

  /** The scene: its direct children, in insertion order. */
  class Scene {
    var children: seq<Object3D>

    constructor ()
      ensures children == []
    {
      children := [];
    }

    /** `getObjectByName`: the first child with that name, or null when there is none. */
    function GetObjectByName(name: string): (o: Object3D?)
      reads this
      ensures o == null <==> forall j :: 0 <= j < |children| ==> children[j].name != name
      ensures o != null ==> o in children && o.name == name && IndexOf(children, o) == FirstNamed(children, name)
    {
      var i := FirstNamed(children, name);
      if i < 0 then null else children[i]
    }

    /** `remove`: splices out the first occurrence of `o`; an absent object is ignored. */
    method Remove(o: Object3D)
      modifies this
      ensures children == RemoveFirst(old(children), o)
    {
      var i := IndexOf(children, o);
      if i >= 0 {
        children := children[..i] + children[i + 1..];
      }
    }

    /** `add`: detaches `o` from this scene if it is a child and appends it as the last child. */
    method Add(o: Object3D)
      modifies this
      ensures children == RemoveFirst(old(children), o) + [o]
    {
      Remove(o);
      children := children + [o];
    }
  }
}
