/** Writing a value at a dotted path of a JSON body. */
module NestedValue {
  import opened Options
  import opened Seqs
  import Text

  datatype Json = Leaf(text: string) | Object(fields: map<string, Json>)

  type Path = seq<string>

  const FORBIDDEN_KEYS := {"__proto__", "prototype", "constructor"}

  predicate HasForbidden(path: Path) {
    exists i | 0 <= i < |path| :: path[i] in FORBIDDEN_KEYS
  }

  /** What a value holds as an object; anything else is replaced by an empty object when written into. */
  function Fields(t: Json): map<string, Json> {
    if t.Object? then t.fields else map[]
  }

  /** The value under `key`, an empty object if there is none. */
  function Child(t: Json, key: string): Json {
    if key in Fields(t) then Fields(t)[key] else Object(map[])
  }

  function With(t: Json, key: string, child: Json): Json {
    Object(Fields(t)[key := child])
  }

  lemma WithSame(t: Json, key: string, x: Json, y: Json)
    ensures Child(With(t, key, x), key) == x && With(With(t, key, x), key, y) == With(t, key, y)
  {
    assert Fields(t)[key := x][key := y] == Fields(t)[key := y];
  }

  lemma WithOther(t: Json, key: string, other: string, x: Json, y: Json)
    requires key != other
    ensures Child(With(t, key, x), other) == Child(t, other)
    ensures With(With(t, key, x), other, y) == With(With(t, other, y), key, x)
  {
    assert Fields(t)[key := x][other := y] == Fields(t)[other := y][key := x];
  }

  function Get(t: Json, path: Path): Option<Json> {
    if path == [] then Some(t)
    else if path[0] in Fields(t) then Get(Fields(t)[path[0]], path[1..])
    else None
  }

  /** The tree with `value` at `path`, the objects on the way made where they are missing. */
  function Put(t: Json, path: Path, value: Json): Json
    decreases |path|
  {
    if path == [] then value
    else With(t, path[0], Put(Child(t, path[0]), path[1..], value))
  }

  function SetNested(t: Json, path: Path, value: Json): Json {
    if HasForbidden(path) then t else Put(t, path, value)
  }

  predicate IsObjectAt(t: Json, path: Path) {
    Get(t, path).Some? && Get(t, path).value.Object?
  }

  lemma {:induction false} GetStep(t: Json, path: Path, key: string)
    requires Get(t, path).Some?
    ensures Get(t, path + [key]) == Get(Get(t, path).value, [key])
    decreases |path|
  {
    if path == [] {
      assert path + [key] == [key];
    } else {
      GetStep(Fields(t)[path[0]], path[1..], key);
      assert (path + [key])[1..] == path[1..] + [key];
    }
  }

  /** Making an empty object where there is none does not change what a deeper write yields. */
  lemma {:induction false} MakeThenPut(t: Json, path: Path, more: Path, value: Json)
    requires more != [] && !IsObjectAt(t, path)
    ensures Put(Put(t, path, Object(map[])), path + more, value) == Put(t, path + more, value)
    decreases |path|
  {
    if path == [] {
      assert path + more == more;
    } else {
      var key, child, made := path[0], Child(t, path[0]), Put(Child(t, path[0]), path[1..], Object(map[]));
      assert (path + more)[0] == key && (path + more)[1..] == path[1..] + more;
      WithSame(t, key, made, Put(made, path[1..] + more, value));
      if key !in Fields(t) && path[1..] == [] {
        assert made == child;
      } else {
        MakeThenPut(child, path[1..], more, value);
      }
    }
  }

  // ---------------------------------------------------------------------
  // Lens laws.
  // ---------------------------------------------------------------------

  /** Reading a path back gives what was written. */
  lemma {:induction false} PutGet(t: Json, path: Path, value: Json)
    ensures Get(Put(t, path, value), path) == Some(value)
    decreases |path|
  {
    if path != [] {
      PutGet(Child(t, path[0]), path[1..], value);
    }
  }

  /** A later write to the same path wins. */
  lemma {:induction false} PutPut(t: Json, path: Path, first: Json, second: Json)
    ensures Put(Put(t, path, first), path, second) == Put(t, path, second)
    decreases |path|
  {
    if path != [] {
      var child := Child(t, path[0]);
      WithSame(t, path[0], Put(child, path[1..], first), Put(child, path[1..], second));
      PutPut(child, path[1..], first, second);
    }
  }

  /** Writing back what is there changes nothing. */
  lemma {:induction false} GetPut(t: Json, path: Path, value: Json)
    requires Get(t, path) == Some(value)
    ensures Put(t, path, value) == t
    decreases |path|
  {
    if path != [] {
      GetPut(Fields(t)[path[0]], path[1..], value);
      assert t.fields[path[0] := t.fields[path[0]]] == t.fields;
    }
  }

  predicate Incomparable(p: Path, q: Path) {
    !(p <= q) && !(q <= p)
  }

  lemma IncomparableTails(p: Path, q: Path)
    requires Incomparable(p, q)
    ensures p != [] && q != [] && (p[0] == q[0] ==> Incomparable(p[1..], q[1..]))
  {
    if p != [] && q != [] && p[0] == q[0] {
      assert p == [p[0]] + p[1..] && q == [q[0]] + q[1..];
    }
  }

  /** A write leaves every incomparable path as it was. */
  lemma {:induction false} PutElsewhere(t: Json, p: Path, q: Path, value: Json)
    requires Incomparable(p, q)
    ensures Get(Put(t, p, value), q) == Get(t, q)
    decreases |p|
  {
    IncomparableTails(p, q);
    if p[0] == q[0] {
      PutElsewhere(Child(t, p[0]), p[1..], q[1..], value);
    }
  }

  /** Writes to incomparable paths commute. */
  lemma {:induction false} PutsCommute(t: Json, p: Path, q: Path, v: Json, w: Json)
    requires Incomparable(p, q)
    ensures Put(Put(t, p, v), q, w) == Put(Put(t, q, w), p, v)
    decreases |p|
  {
    IncomparableTails(p, q);
    var x, y := Put(Child(t, p[0]), p[1..], v), Put(Child(t, q[0]), q[1..], w);
    if p[0] == q[0] {
      PutsCommute(Child(t, p[0]), p[1..], q[1..], v, w);
      WithSame(t, p[0], x, Put(x, q[1..], w));
      WithSame(t, p[0], y, Put(y, p[1..], v));
    } else {
      WithOther(t, p[0], q[0], x, y);
      WithOther(t, q[0], p[0], y, x);
    }
  }

  lemma ForbiddenKeys(p: Path)
    ensures HasForbidden(p) <==> "__proto__" in p || "prototype" in p || "constructor" in p
  {
  }

  /** With a forbidden key anywhere the tree is unchanged; otherwise the laws above apply. */
  lemma SetNestedIsALens(t: Json, p: Path, q: Path, v: Json, w: Json)
    ensures "__proto__" in p || "prototype" in p || "constructor" in p ==> SetNested(t, p, v) == t
    ensures "__proto__" !in p && "prototype" !in p && "constructor" !in p ==>
              && Get(SetNested(t, p, v), p) == Some(v)
              && SetNested(SetNested(t, p, v), p, w) == SetNested(t, p, w)
              && (Get(t, p) == Some(v) ==> SetNested(t, p, v) == t)
    ensures Incomparable(p, q) ==>
              && Get(SetNested(t, p, v), q) == Get(t, q)
              && SetNested(SetNested(t, p, v), q, w) == SetNested(SetNested(t, q, w), p, v)
  {
    ForbiddenKeys(p);
    PutGet(t, p, v);
    PutPut(t, p, v, w);
    if Get(t, p) == Some(v) { GetPut(t, p, v); }
    if Incomparable(p, q) {
      PutElsewhere(t, p, q, v);
      PutsCommute(t, p, q, v, w);
    }
  }

  // ---------------------------------------------------------------------
  // Objects on the heap.
  // ---------------------------------------------------------------------

  /** What a property holds: a primitive, or a reference to an object. */
  datatype Slot = Text(text: string) | Ref(node: Node)

  class Node {
    var fields: map<string, Slot>

    constructor ()
      ensures fields == map[]
    {
      fields := map[];
    }
  }

  /** A value together with the objects it is made of. */
  datatype Tree = Prim(text: string) | Tree(node: Node, kids: map<string, Tree>)

  function SlotOf(t: Tree): Slot {
    if t.Prim? then Text(t.text) else Ref(t.node)
  }

  ghost function Nodes(t: Tree): set<Node> {
    match t
    case Prim(_) => {}
    case Tree(node, kids) => {node} + set k, n | k in kids && n in Nodes(kids[k]) :: n
  }

  /** No object occurs twice. */
  ghost predicate Unshared(t: Tree) {
    t.Tree? ==>
      && (forall k | k in t.kids :: t.node !in Nodes(t.kids[k]) && Unshared(t.kids[k]))
      && (forall k, l | k in t.kids && l in t.kids && k != l :: Nodes(t.kids[k]) !! Nodes(t.kids[l]))
  }

  /** The heap holds the tree. */
  ghost predicate Stored(t: Tree)
    reads Nodes(t)
  {
    t.Tree? ==>
      && t.node.fields == (map k | k in t.kids :: SlotOf(t.kids[k]))
      && forall k | k in t.kids :: Stored(t.kids[k])
  }

  function Value(t: Tree): Json {
    match t
    case Prim(text) => Leaf(text)
    case Tree(_, kids) => Object(map k | k in kids :: Value(kids[k]))
  }

  /** There is an object at `at`. */
  predicate Reaches(t: Tree, at: Path) {
    t.Tree? && (at == [] || (at[0] in t.kids && Reaches(t.kids[at[0]], at[1..])))
  }

  function Sub(t: Tree, at: Path): (s: Tree)
    requires Reaches(t, at)
    ensures s.Tree?
  {
    if at == [] then t else Sub(t.kids[at[0]], at[1..])
  }

  /** The tree after the object at `at` was given `item` under `key`. */
  function Write(t: Tree, at: Path, key: string, item: Tree): (r: Tree)
    requires Reaches(t, at)
    ensures r.Tree? && r.node == t.node
  {
    if at == [] then Tree(t.node, t.kids[key := item])
    else Tree(t.node, t.kids[at[0] := Write(t.kids[at[0]], at[1..], key, item)])
  }

  lemma {:induction false} SubIsInside(t: Tree, at: Path)
    requires Reaches(t, at)
    ensures Sub(t, at).node in Nodes(t)
    decreases |at|
  {
    if at != [] { SubIsInside(t.kids[at[0]], at[1..]); }
  }

  /** Reading the value is reading the tree. */
  lemma {:induction false} GetOfValue(t: Tree, at: Path)
    requires Reaches(t, at)
    ensures Get(Value(t), at) == Some(Value(Sub(t, at)))
    decreases |at|
  {
    if at != [] { GetOfValue(t.kids[at[0]], at[1..]); }
  }

  lemma ValueWith(node: Node, kids: map<string, Tree>, key: string, item: Tree)
    ensures Value(Tree(node, kids[key := item])) == With(Value(Tree(node, kids)), key, Value(item))
  {
    var updated := kids[key := item];
    assert (map k | k in updated :: Value(updated[k])) == (map k | k in kids :: Value(kids[k]))[key := Value(item)];
  }

  /** One write into one object is a write at its path. */
  lemma {:induction false} WriteIsPut(t: Tree, at: Path, key: string, item: Tree)
    requires Reaches(t, at)
    ensures Value(Write(t, at, key, item)) == Put(Value(t), at + [key], Value(item))
    decreases |at|
  {
    if at == [] {
      ValueWith(t.node, t.kids, key, item);
      assert at + [key] == [key] && [key][1..] == [];
    } else {
      var kid := t.kids[at[0]];
      WriteIsPut(kid, at[1..], key, item);
      ValueWith(t.node, t.kids, at[0], Write(kid, at[1..], key, item));
      assert (at + [key])[1..] == at[1..] + [key];
    }
  }

  lemma {:induction false} WriteKeepsUnshared(t: Tree, at: Path, key: string, item: Tree)
    requires Reaches(t, at) && Unshared(t) && Unshared(item) && Nodes(t) !! Nodes(item)
    ensures Unshared(Write(t, at, key, item)) && Nodes(Write(t, at, key, item)) <= Nodes(t) + Nodes(item)
    decreases |at|
  {
    if at != [] {
      WriteKeepsUnshared(t.kids[at[0]], at[1..], key, item);
    }
  }

  /** The fields of some objects at some moment. */
  type Snapshot = map<Node, map<string, Slot>>

  predicate StoredIn(t: Tree, h: Snapshot) {
    t.Tree? ==>
      && t.node in h && h[t.node] == (map k | k in t.kids :: SlotOf(t.kids[k]))
      && forall k | k in t.kids :: StoredIn(t.kids[k], h)
  }

  /** The snapshot shows the objects of the tree as they are. */
  ghost predicate Shows(h: Snapshot, t: Tree)
    reads Nodes(t)
  {
    forall n | n in Nodes(t) :: n in h && h[n] == n.fields
  }

  lemma {:induction false} StoredAsShown(t: Tree, h: Snapshot)
    requires Shows(h, t)
    ensures Stored(t) <==> StoredIn(t, h)
    decreases t
  {
    if t.Tree? {
      forall k | k in t.kids ensures Stored(t.kids[k]) <==> StoredIn(t.kids[k], h) { StoredAsShown(t.kids[k], h); }
    }
  }

  lemma StoredAsShownIn(t: Tree, nodes: set<Node>, h: Snapshot)
    requires Nodes(t) <= nodes && forall n | n in nodes :: n in h && h[n] == n.fields
    ensures Stored(t) <==> StoredIn(t, h)
  {
    StoredAsShown(t, h);
  }

  /** A tree is stored in any snapshot that shows its objects alike. */
  lemma {:induction false} StoredElsewhere(t: Tree, h: Snapshot, h': Snapshot)
    requires StoredIn(t, h) && forall n | n in Nodes(t) && n in h :: n in h' && h'[n] == h[n]
    ensures StoredIn(t, h')
    decreases t
  {
    if t.Tree? {
      forall k | k in t.kids ensures StoredIn(t.kids[k], h') { StoredElsewhere(t.kids[k], h, h'); }
    }
  }

  function Slots(kids: map<string, Tree>): map<string, Slot> {
    map k | k in kids :: SlotOf(kids[k])
  }

  lemma StoredWithKid(node: Node, kids: map<string, Tree>, key: string, item: Tree, h: Snapshot)
    requires node in h && h[node] == Slots(kids)[key := SlotOf(item)] && StoredIn(item, h)
    requires forall k | k in kids && k != key :: StoredIn(kids[k], h)
    ensures StoredIn(Tree(node, kids[key := item]), h)
  {
    var updated := kids[key := item];
    assert Slots(updated) == Slots(kids)[key := SlotOf(item)];
  }

  /** The subtrees that a changed object is not part of stay stored. */
  lemma OtherKidsStored(t: Tree, changed: Node, key: string, h: Snapshot, h': Snapshot)
    requires t.Tree? && StoredIn(t, h) && Unshared(t)
    requires changed == t.node || (key in t.kids && changed in Nodes(t.kids[key]))
    requires forall n | n in Nodes(t) && n in h && n != changed :: n in h' && h'[n] == h[n]
    ensures forall k | k in t.kids && k != key :: StoredIn(t.kids[k], h')
  {
    forall k | k in t.kids && k != key ensures StoredIn(t.kids[k], h') { StoredElsewhere(t.kids[k], h, h'); }
  }

  /** Writing one field of the object at `at`, and nothing else of the tree, stores the new tree. */
  lemma {:induction false} WriteIsStored(t: Tree, at: Path, key: string, item: Tree, h: Snapshot, h': Snapshot)
    requires Reaches(t, at) && Unshared(t) && StoredIn(t, h) && StoredIn(item, h')
    requires var n := Sub(t, at).node; n in h && n in h' && h'[n] == h[n][key := SlotOf(item)]
    requires forall n | n in Nodes(t) && n in h && n != Sub(t, at).node :: n in h' && h'[n] == h[n]
    ensures StoredIn(Write(t, at, key, item), h')
    decreases |at|
  {
    if at == [] {
      OtherKidsStored(t, t.node, key, h, h');
      StoredWithKid(t.node, t.kids, key, item, h');
    } else {
      var kid := t.kids[at[0]];
      SubIsInside(kid, at[1..]);
      WriteIsStored(kid, at[1..], key, item, h, h');
      OtherKidsStored(t, Sub(t, at).node, at[0], h, h');
      assert h'[t.node] == Slots(t.kids)[at[0] := Ref(kid.node)];
      StoredWithKid(t.node, t.kids, at[0], Write(kid, at[1..], key, item), h');
    }
  }

  /** The new tree is stored in the snapshot that differs in that field. */
  lemma UpdateIsStored(t: Tree, at: Path, key: string, item: Tree, h: Snapshot)
    requires Reaches(t, at) && Unshared(t) && StoredIn(t, h) && StoredIn(item, h) && Nodes(t) !! Nodes(item)
    requires Sub(t, at).node in h
    ensures var n := Sub(t, at).node;
            StoredIn(Write(t, at, key, item), h[n := h[n][key := SlotOf(item)]])
  {
    var n := Sub(t, at).node;
    var h' := h[n := h[n][key := SlotOf(item)]];
    SubIsInside(t, at);
    StoredElsewhere(item, h, h');
    WriteIsStored(t, at, key, item, h, h');
  }

  // ---------------------------------------------------------------------
  // The routine.
  // ---------------------------------------------------------------------

  /** The assignment itself, seen in a snapshot. */
  method Assign(current: Node, key: string, slot: Slot, ghost all: set<Node>, ghost h: Snapshot)
    requires current in all && forall n | n in all :: n in h && h[n] == n.fields
    modifies current
    ensures current.fields == old(current.fields)[key := slot]
    ensures var h' := h[current := h[current][key := slot]]; forall n | n in all :: n in h' && h'[n] == n.fields
  {
    current.fields := current.fields[key := slot];
  }

  /** `current[key] = slot`, where `current` is the object at `at` of the stored tree. */
  method WriteField(current: Node, key: string, slot: Slot, ghost tree: Tree, ghost at: Path, ghost item: Tree)
    returns (ghost after: Tree)
    requires Stored(tree) && Unshared(tree) && Reaches(tree, at) && Sub(tree, at).node == current
    requires SlotOf(item) == slot && Stored(item) && Unshared(item) && Nodes(tree) !! Nodes(item)
    modifies current
    ensures current.fields == old(current.fields)[key := slot]
    ensures after == Write(tree, at, key, item) && Stored(after) && Unshared(after)
    ensures Nodes(after) <= Nodes(tree) + Nodes(item)
    ensures Value(after) == Put(Value(tree), at + [key], Value(item))
  {
    ghost var all := Nodes(tree) + Nodes(item);
    ghost var h: Snapshot := map n: Node | n in all :: n.fields;
    SubIsInside(tree, at);
    StoredAsShown(tree, h);
    StoredAsShown(item, h);
    UpdateIsStored(tree, at, key, item, h);
    WriteKeepsUnshared(tree, at, key, item);
    WriteIsPut(tree, at, key, item);
    after := Write(tree, at, key, item);
    Assign(current, key, slot, all, h);
    StoredAsShownIn(after, all, h[current := h[current][key := slot]]);
  }

  /** The tree is stored, and no object occurs in it twice. */
  ghost predicate Intact(t: Tree)
    reads Nodes(t)
  {
    t.Tree? && Stored(t) && Unshared(t)
  }

  /** A new, empty object. */
  method NewNode(ghost tree: Tree, ghost nodes: set<Node>) returns (made: Node)
    requires Intact(tree) && Nodes(tree) <= nodes
    ensures fresh(made) && made.fields == map[] && made !in nodes
    ensures Intact(tree)
  {
    made := new Node();
    assert forall n | n in Nodes(tree) :: n in nodes;
  }

  /** `current[key] = {}`. */
  method MakeChild(current: Node, key: string, ghost tree: Tree, ghost at: Path, ghost others: set<Node>)
    returns (made: Node)
    requires Intact(tree) && Reaches(tree, at) && Sub(tree, at).node == current
    modifies current
    ensures fresh(made) && made !in others
    ensures forall n | n in others && n != current :: n.fields == old(n.fields)
    ensures var after := Write(tree, at, key, Tree(made, map[]));
            Intact(after) && Nodes(after) <= Nodes(tree) + {made}
  {
    made := NewNode(tree, Nodes(tree) + others);
    ghost var after := WriteField(current, key, Ref(made), tree, at, Tree(made, map[]));
  }

  /** The tree after the walk has passed `key`: the same, or with the object that was made. */
  ghost predicate Passed(tree: Tree, at: Path, key: string, next: Node, after: Tree)
    requires Reaches(tree, at)
  {
    if key in Sub(tree, at).kids && Sub(tree, at).kids[key].Tree?
    then after == tree && Sub(tree, at).kids[key].node == next
    else after == Write(tree, at, key, Tree(next, map[]))
  }

  /** Passing changes nothing of what a write further down (`more`) comes to. */
  lemma PassingIsNeutral(tree: Tree, at: Path, key: string, next: Node, after: Tree, more: Path, value: Json)
    requires Reaches(tree, at) && Passed(tree, at, key, next, after) && more != []
    ensures after.Tree? && after.node == tree.node
    ensures Reaches(after, at + [key]) && Sub(after, at + [key]).node == next
    ensures Put(Value(after), at + [key] + more, value) == Put(Value(tree), at + [key] + more, value)
  {
    if key in Sub(tree, at).kids && Sub(tree, at).kids[key].Tree? {
      StepReaches(tree, at, key);
    } else {
      WriteReaches(tree, at, key, next);
      NotAnObject(tree, at, key);
      WriteIsPut(tree, at, key, Tree(next, map[]));
      MakeThenPut(Value(tree), at + [key], more, value);
    }
  }

  /** One turn of the walk: go to the object under `key`, made first if there is none. */
  method Descend(current: Node, key: string, ghost tree: Tree, ghost at: Path, ghost others: set<Node>)
    returns (next: Node, ghost after: Tree, ghost made: set<Node>)
    requires Intact(tree) && Reaches(tree, at) && Sub(tree, at).node == current
    modifies current
    ensures Intact(after) && Passed(tree, at, key, next, after)
    ensures fresh(made) && made !! others && Nodes(after) <= Nodes(tree) + made
    ensures forall n | n in others && n != current :: n.fields == old(n.fields)
  {
    SubIsStored(tree, at);
    if key !in current.fields || !current.fields[key].Ref? {
      next := MakeChild(current, key, tree, at, others);
      after, made := Write(tree, at, key, Tree(next, map[])), {next};
    } else {
      after, made := tree, {};
      next := current.fields[key].node;
    }
  }

  lemma Parts(parts: Path, i: nat)
    requires i < |parts|
    ensures parts[..i + 1] == parts[..i] + [parts[i]] && parts == parts[..i] + [parts[i]] + parts[i + 1..]
  {
  }

  /** `tree` and `item` are what the heap holds under `obj` and `value`; `after` is what it then holds under `obj`. */
  method SetNestedValue(obj: Node, path: string, value: Slot, ghost tree: Tree, ghost item: Tree)
    returns (ghost after: Tree)
    requires Intact(tree) && tree.node == obj
    requires SlotOf(item) == value && Stored(item) && Unshared(item) && Nodes(tree) !! Nodes(item)
    modifies Nodes(tree)
    ensures Intact(after) && after.node == obj
    ensures Value(after) == SetNested(Value(tree), Text.Split(path, '.'), Value(item))
    ensures fresh(Nodes(after) - Nodes(tree) - Nodes(item))
  {
    after := tree;
    var parts := Text.Split(path, '.');
    if HasForbidden(parts) { return; }
    ghost var own, foreign := Nodes(tree), Nodes(item);
    ghost var h: Snapshot := map n: Node | n in foreign :: n.fields;
    StoredAsShown(item, h);
    var current := obj;
    for i := 0 to |parts| - 1
      invariant Intact(after) && after.node == obj
      invariant Nodes(after) <= own && fresh(own - Nodes(tree)) && own !! foreign
      invariant forall n | n in foreign :: n.fields == h[n]
      invariant Reaches(after, parts[..i]) && Sub(after, parts[..i]).node == current
      invariant Put(Value(after), parts, Value(item)) == Put(Value(tree), parts, Value(item))
    {
      ghost var before := after;
      SubIsInside(before, parts[..i]);
      Parts(parts, i);
      ghost var made;
      current, after, made := Descend(current, parts[i], before, parts[..i], foreign);
      PassingIsNeutral(before, parts[..i], parts[i], current, after, parts[i + 1..], Value(item));
      own := own + made;
    }
    var last := |parts| - 1;
    InitLast(parts);
    StoredAsShown(item, h);
    SubIsInside(after, parts[..last]);
    after := WriteField(current, parts[last], value, after, parts[..last], item);
  }

  lemma {:induction false} SubIsStored(t: Tree, at: Path)
    requires Reaches(t, at) && Stored(t)
    ensures Nodes(Sub(t, at)) <= Nodes(t) && Stored(Sub(t, at))
    decreases |at|
  {
    if at != [] { SubIsStored(t.kids[at[0]], at[1..]); }
  }

  /** Where a field holds no reference, the value holds no object. */
  lemma NotAnObject(t: Tree, at: Path, key: string)
    requires Reaches(t, at) && (key !in Sub(t, at).kids || Sub(t, at).kids[key].Prim?)
    ensures !IsObjectAt(Value(t), at + [key])
  {
    GetOfValue(t, at);
    GetStep(Value(t), at, key);
  }

  lemma {:induction false} StepReaches(t: Tree, at: Path, key: string)
    requires Reaches(t, at) && key in Sub(t, at).kids && Sub(t, at).kids[key].Tree?
    ensures Reaches(t, at + [key]) && Sub(t, at + [key]) == Sub(t, at).kids[key]
    decreases |at|
  {
    if at == [] {
      assert at + [key] == [key] && [key][1..] == [];
    } else {
      StepReaches(t.kids[at[0]], at[1..], key);
      assert (at + [key])[1..] == at[1..] + [key];
    }
  }

  lemma {:induction false} WriteReaches(t: Tree, at: Path, key: string, made: Node)
    requires Reaches(t, at)
    ensures var after := Write(t, at, key, Tree(made, map[]));
            Reaches(after, at + [key]) && Sub(after, at + [key]).node == made
    decreases |at|
  {
    if at == [] {
      assert at + [key] == [key] && [key][1..] == [];
    } else {
      WriteReaches(t.kids[at[0]], at[1..], key, made);
      assert (at + [key])[1..] == at[1..] + [key];
    }
  }
}
