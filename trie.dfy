/**
 * The forest of weak maps that caches tuples: one tree per tuple length,
 * each edge keyed by a canonical key, the last level holding the tuples.
 * Weak maps are modelled as ordinary maps and nodes and tuples by their
 * allocation index; the invariant and its preservation by each insertion
 * are stated on the value of the whole forest.
 */
module WeakTrie {
  import opened JsValues

  /** What a weak map of the trie holds under a key: the weak map of the next level, or, at the last level, a tuple. */
  datatype Entry = Child(node: nat) | Cached(tuple: nat)

  /** A place in the forest: the length class of the tree and the keys followed from its root. */
  datatype Path = Path(length: nat, keys: seq<Value>)

  /**
   * The depth of the weak maps that hold the tuples of a length class:
   * `length - 1`, and 0 for the empty tuple, whose one key is that of `array[-1]`.
   */
  function Leaf(length: nat): (depth: nat) {
    if length == 0 then 0 else length - 1
  }

  /**
   * The trie: `roots` is `maps` (the root node of each length class),
   * `nodes` the weak maps, `tuples` the elements of each tuple. The other
   * fields are bookkeeping for the proofs: the place of each node, the
   * parent of each node, the place each tuple is cached at and the node
   * that holds it.
   */
  datatype Forest = Forest(
    roots: map<nat, nat>,
    nodes: seq<map<Value, Entry>>,
    tuples: seq<seq<Value>>,
    paths: seq<Path>,
    parents: seq<nat>,
    signatures: seq<Path>,
    holders: seq<nat>)

  ghost predicate Sized(f: Forest) {
    && |f.paths| == |f.nodes| && |f.parents| == |f.nodes|
    && |f.signatures| == |f.tuples| && |f.holders| == |f.tuples|
  }

  /**
   * The entry under `k` at node `N`: above the last level a child node one
   * key deeper, at the last level the tuple cached for the extended keys.
   * Keys are objects.
   */
  ghost predicate EdgeValid(f: Forest, N: nat, k: Value)
    requires Sized(f) && N < |f.nodes| && k in f.nodes[N]
  {
    var p := f.paths[N];
    var e := f.nodes[N][k];
    && k.Obj?
    && if |p.keys| < Leaf(p.length) then
         e.Child? && e.node < |f.nodes| && f.paths[e.node] == Path(p.length, p.keys + [k])
       else
         e.Cached? && e.tuple < |f.tuples| && f.signatures[e.tuple] == Path(p.length, p.keys + [k])
  }

  /** A non-root node is the child of its parent under the last key of its path. */
  ghost predicate ParentValid(f: Forest, N: nat)
    requires Sized(f) && N < |f.nodes| && f.paths[N].keys != []
  {
    var p := f.paths[N];
    var P := f.parents[N];
    var last := p.keys[|p.keys| - 1];
    && P < |f.nodes|
    && f.paths[P] == Path(p.length, p.keys[..|p.keys| - 1])
    && last in f.nodes[P]
    && f.nodes[P][last] == Child(N)
  }

  /** A tuple has the length of its class and is held at the last level under the last key of its signature. */
  ghost predicate TupleValid(f: Forest, t: nat)
    requires Sized(f) && t < |f.tuples|
  {
    var s := f.signatures[t];
    var H := f.holders[t];
    var L := Leaf(s.length);
    && |f.tuples[t]| == s.length
    && |s.keys| == L + 1
    && H < |f.nodes|
    && f.paths[H] == Path(s.length, s.keys[..L])
    && s.keys[L] in f.nodes[H]
    && f.nodes[H][s.keys[L]] == Cached(t)
  }

  /** Each length class has at most one root, at depth 0. */
  ghost predicate RootsValid(f: Forest)
    requires Sized(f)
  {
    && (forall n :: n in f.roots ==> f.roots[n] < |f.nodes| && f.paths[f.roots[n]] == Path(n, []))
    && (forall N :: 0 <= N < |f.nodes| && f.paths[N].keys == [] ==>
          f.paths[N].length in f.roots && f.roots[f.paths[N].length] == N)
  }

  ghost predicate DepthsValid(f: Forest)
    requires Sized(f)
  {
    forall N :: 0 <= N < |f.nodes| ==> |f.paths[N].keys| <= Leaf(f.paths[N].length)
  }

  ghost predicate EdgesValid(f: Forest)
    requires Sized(f)
  {
    forall N, k :: 0 <= N < |f.nodes| && k in f.nodes[N] ==> EdgeValid(f, N, k)
  }

  ghost predicate ParentsValid(f: Forest)
    requires Sized(f)
  {
    forall N {:trigger ParentValid(f, N)} :: 0 <= N < |f.nodes| && f.paths[N].keys != [] ==> ParentValid(f, N)
  }

  /** Some node stands at `place`. */
  ghost predicate HasNode(f: Forest, place: Path) {
    exists N :: 0 <= N < |f.nodes| && N < |f.paths| && f.paths[N] == place
  }

  /** No two nodes stand at the same place. */
  ghost predicate PlacesUnique(f: Forest)
    requires Sized(f)
  {
    forall A, B :: 0 <= A < |f.nodes| && 0 <= B < |f.nodes| && f.paths[A] == f.paths[B] ==> A == B
  }

  ghost predicate TuplesValid(f: Forest)
    requires Sized(f)
  {
    forall t :: 0 <= t < |f.tuples| ==> TupleValid(f, t)
  }

  ghost predicate Valid(f: Forest) {
    && Sized(f)
    && RootsValid(f)
    && DepthsValid(f)
    && EdgesValid(f)
    && ParentsValid(f)
    && PlacesUnique(f)
    && TuplesValid(f)
  }

  /** The empty forest is valid. */
  lemma EmptyValid()
    ensures Valid(Forest(map[], [], [], [], [], [], []))
  {
  }

  /** `g` only adds to `f`: roots, weak-map entries and tuples stay as they were. */
  ghost predicate Extends(f: Forest, g: Forest) {
    && (forall n :: n in f.roots ==> n in g.roots && g.roots[n] == f.roots[n])
    && |f.nodes| <= |g.nodes|
    && (forall N, k :: 0 <= N < |f.nodes| && k in f.nodes[N] ==> k in g.nodes[N] && g.nodes[N][k] == f.nodes[N][k])
    && f.tuples <= g.tuples
    && f.paths <= g.paths
    && f.signatures <= g.signatures
  }

  lemma ExtendsTransitive(f: Forest, g: Forest, h: Forest)
    requires Extends(f, g) && Extends(g, h)
    ensures Extends(f, h)
  {
  }

  /** `maps[length] = new WeakMap()`. */
  function AddRoot(f: Forest, length: nat): (g: Forest) {
    f.(roots := f.roots[length := |f.nodes|],
       nodes := f.nodes + [map[]],
       paths := f.paths + [Path(length, [])],
       parents := f.parents + [0])
  }

  /** `next = new WeakMap(); map.set(key, next)` at node `parent`. */
  function AddChild(f: Forest, parent: nat, key: Value): (g: Forest)
    requires parent < |f.nodes| && parent < |f.paths|
  {
    var p := f.paths[parent];
    f.(nodes := f.nodes[parent := f.nodes[parent][key := Child(|f.nodes|)]] + [map[]],
       paths := f.paths + [Path(p.length, p.keys + [key])],
       parents := f.parents + [parent])
  }

  /** `map.set(final, tuple)` at node `holder`, for a new tuple with elements `items`. */
  function AddTuple(f: Forest, holder: nat, key: Value, items: seq<Value>): (g: Forest)
    requires holder < |f.nodes| && holder < |f.paths|
  {
    var p := f.paths[holder];
    f.(nodes := f.nodes[holder := f.nodes[holder][key := Cached(|f.tuples|)]],
       tuples := f.tuples + [items],
       signatures := f.signatures + [Path(p.length, p.keys + [key])],
       holders := f.holders + [holder])
  }

  /**
   * From `f` to `g` nothing was created but the root of class `length` and
   * weak maps of that class at prefixes of `keys`.
   */
  ghost predicate GrownAlong(f: Forest, g: Forest, length: nat, keys: seq<Value>) {
    && g.roots.Keys <= f.roots.Keys + {length}
    && |f.nodes| <= |g.paths|
    && forall p :: p in g.paths[|f.nodes|..] ==> p.length == length && p.keys <= keys
  }

  /** A new child of the node at `keys` stands at `keys` extended by its key. */
  lemma GrownAlongChild(f: Forest, g: Forest, length: nat, keys: seq<Value>, parent: nat, key: Value)
    requires GrownAlong(f, g, length, keys) && |g.paths| == |g.nodes|
    requires parent < |g.nodes| && g.paths[parent] == Path(length, keys)
    ensures GrownAlong(f, AddChild(g, parent, key), length, keys + [key])
  {
    var h := AddChild(g, parent, key);
    assert h.paths[|f.nodes|..] == g.paths[|f.nodes|..] + [Path(length, keys + [key])];
    forall p | p in g.paths[|f.nodes|..] ensures p.keys <= keys + [key] {
      PrefixOfLonger(p.keys, keys, key);
    }
    PrefixOfLonger(keys, keys, key);
  }

  /** Growth along `keys` is growth along any extension of `keys`. */
  lemma GrownAlongWiden(f: Forest, g: Forest, length: nat, keys: seq<Value>, longer: seq<Value>)
    requires GrownAlong(f, g, length, keys) && keys <= longer
    ensures GrownAlong(f, g, length, longer)
  {
  }

  /** A prefix of `keys` is a prefix of `keys` extended. */
  lemma PrefixOfLonger(a: seq<Value>, keys: seq<Value>, key: Value)
    requires a <= keys
    ensures a <= keys + [key]
  {
    assert (keys + [key])[..|keys|] == keys;
  }

  /** Every node one key below `parent` is its child under that key. */
  lemma ChildrenArePresent(f: Forest, parent: nat, key: Value)
    requires Valid(f) && parent < |f.nodes|
    ensures forall N :: 0 <= N < |f.nodes| && f.paths[N] == Path(f.paths[parent].length, f.paths[parent].keys + [key]) ==>
              key in f.nodes[parent] && f.nodes[parent][key] == Child(N)
  {
    var q := Path(f.paths[parent].length, f.paths[parent].keys + [key]);
    forall N | 0 <= N < |f.nodes| && f.paths[N] == q
      ensures key in f.nodes[parent] && f.nodes[parent][key] == Child(N)
    {
      assert ParentValid(f, N);
      assert f.paths[N].keys[..|f.paths[N].keys| - 1] == f.paths[parent].keys;
    }
  }

  /** Every tuple whose signature extends the last-level node `holder` by `key` is held there under `key`. */
  lemma TuplesArePresent(f: Forest, holder: nat, key: Value)
    requires Valid(f) && holder < |f.nodes|
    requires |f.paths[holder].keys| == Leaf(f.paths[holder].length)
    ensures forall t :: 0 <= t < |f.tuples| && f.signatures[t] == Path(f.paths[holder].length, f.paths[holder].keys + [key]) ==>
              key in f.nodes[holder] && f.nodes[holder][key] == Cached(t)
  {
    var q := Path(f.paths[holder].length, f.paths[holder].keys + [key]);
    forall t | 0 <= t < |f.tuples| && f.signatures[t] == q
      ensures key in f.nodes[holder] && f.nodes[holder][key] == Cached(t)
    {
      assert TupleValid(f, t);
      assert q.keys[..Leaf(q.length)] == f.paths[holder].keys;
    }
  }

  /** Creating the root of a length class that has none keeps the forest valid. */
  lemma AddRootValid(f: Forest, length: nat)
    requires Valid(f) && length !in f.roots
    ensures Valid(AddRoot(f, length)) && Extends(f, AddRoot(f, length))
  {
    var g := AddRoot(f, length);
    assert Sized(g);
    AddRootRoots(f, length);
    AddRootEdges(f, length);
    AddRootParents(f, length);
    AddRootUnique(f, length);
    assert DepthsValid(g);
    assert TuplesValid(g) by {
      forall t | 0 <= t < |g.tuples| ensures TupleValid(g, t) {
        assert TupleValid(f, t);
      }
    }
  }

  lemma AddRootUnique(f: Forest, length: nat)
    requires Valid(f) && length !in f.roots
    ensures Sized(AddRoot(f, length)) && PlacesUnique(AddRoot(f, length))
  {
    var g := AddRoot(f, length);
    assert forall N :: 0 <= N < |f.nodes| ==> f.paths[N] != Path(length, []);
    forall A, B | 0 <= A < |g.nodes| && 0 <= B < |g.nodes| && g.paths[A] == g.paths[B] ensures A == B {
      if A < |f.nodes| && B < |f.nodes| {
        assert f.paths[A] == f.paths[B];
      }
    }
  }

  lemma AddRootRoots(f: Forest, length: nat)
    requires Valid(f) && length !in f.roots
    ensures Sized(AddRoot(f, length)) && RootsValid(AddRoot(f, length))
  {
  }

  lemma AddRootEdges(f: Forest, length: nat)
    requires Valid(f) && length !in f.roots
    ensures Sized(AddRoot(f, length)) && EdgesValid(AddRoot(f, length))
  {
    var g := AddRoot(f, length);
    forall N, k | 0 <= N < |g.nodes| && k in g.nodes[N] ensures EdgeValid(g, N, k) {
      assert EdgeValid(f, N, k);
    }
  }

  lemma AddRootParents(f: Forest, length: nat)
    requires Valid(f) && length !in f.roots
    ensures Sized(AddRoot(f, length)) && ParentsValid(AddRoot(f, length))
  {
    var g := AddRoot(f, length);
    forall N | 0 <= N < |g.nodes| && g.paths[N].keys != [] ensures ParentValid(g, N) {
      assert ParentValid(f, N);
    }
  }

  /** Inserting a new child under an object key missing from a node above the last level keeps the forest valid. */
  lemma AddChildValid(f: Forest, parent: nat, key: Value)
    requires Valid(f) && parent < |f.nodes|
    requires key.Obj? && key !in f.nodes[parent]
    requires |f.paths[parent].keys| < Leaf(f.paths[parent].length)
    ensures Valid(AddChild(f, parent, key)) && Extends(f, AddChild(f, parent, key))
  {
    var g := AddChild(f, parent, key);
    assert Sized(g);
    assert RootsValid(g);
    assert DepthsValid(g);
    AddChildEdges(f, parent, key);
    AddChildParents(f, parent, key);
    AddChildUnique(f, parent, key);
    assert TuplesValid(g) by {
      forall t | 0 <= t < |g.tuples| ensures TupleValid(g, t) {
        assert TupleValid(f, t);
      }
    }
  }

  lemma AddChildEdges(f: Forest, parent: nat, key: Value)
    requires Valid(f) && parent < |f.nodes|
    requires key.Obj? && key !in f.nodes[parent]
    requires |f.paths[parent].keys| < Leaf(f.paths[parent].length)
    ensures Sized(AddChild(f, parent, key)) && EdgesValid(AddChild(f, parent, key))
  {
    var g := AddChild(f, parent, key);
    forall N, k | 0 <= N < |g.nodes| && k in g.nodes[N] ensures EdgeValid(g, N, k) {
      if N != parent || k != key {
        assert EdgeValid(f, N, k);
      }
    }
  }

  lemma AddChildParents(f: Forest, parent: nat, key: Value)
    requires Valid(f) && parent < |f.nodes|
    requires key !in f.nodes[parent]
    ensures Sized(AddChild(f, parent, key)) && ParentsValid(AddChild(f, parent, key))
  {
    var g := AddChild(f, parent, key);
    var p := f.paths[parent];
    assert (p.keys + [key])[..|p.keys|] == p.keys;
    forall N | 0 <= N < |g.nodes| && g.paths[N].keys != [] ensures ParentValid(g, N) {
      if N < |f.nodes| {
        assert ParentValid(f, N);
        var P := f.parents[N];
        var last := f.paths[N].keys[|f.paths[N].keys| - 1];
        assert g.paths[N] == f.paths[N] && g.parents[N] == P && g.paths[P] == f.paths[P];
        assert last in g.nodes[P] && g.nodes[P][last] == f.nodes[P][last];
      } else {
        assert g.paths[N].keys[..|g.paths[N].keys| - 1] == p.keys;
      }
    }
  }

  lemma AddChildUnique(f: Forest, parent: nat, key: Value)
    requires Valid(f) && parent < |f.nodes|
    requires key !in f.nodes[parent]
    ensures Sized(AddChild(f, parent, key)) && PlacesUnique(AddChild(f, parent, key))
  {
    var g := AddChild(f, parent, key);
    ChildrenArePresent(f, parent, key);
    forall A, B | 0 <= A < |g.nodes| && 0 <= B < |g.nodes| && g.paths[A] == g.paths[B] ensures A == B {
      if A < |f.nodes| && B < |f.nodes| {
        assert f.paths[A] == f.paths[B];
      }
    }
  }

  /** Caching a new tuple under an object key missing from a last-level node keeps the forest valid. */
  lemma AddTupleValid(f: Forest, holder: nat, key: Value, items: seq<Value>)
    requires Valid(f) && holder < |f.nodes|
    requires key.Obj? && key !in f.nodes[holder]
    requires |f.paths[holder].keys| == Leaf(f.paths[holder].length) && |items| == f.paths[holder].length
    ensures Valid(AddTuple(f, holder, key, items)) && Extends(f, AddTuple(f, holder, key, items))
  {
    var g := AddTuple(f, holder, key, items);
    var t := |f.tuples|;
    var p := f.paths[holder];
    assert (p.keys + [key])[..Leaf(p.length)] == p.keys;
    assert TupleValid(g, t);
    assert RootsValid(g);
    assert EdgesValid(g) by {
      forall N, k | 0 <= N < |g.nodes| && k in g.nodes[N] ensures EdgeValid(g, N, k) {
        if N != holder || k != key {
          assert EdgeValid(f, N, k);
        }
      }
    }
    assert ParentsValid(g) by {
      forall N | 0 <= N < |g.nodes| && g.paths[N].keys != [] ensures ParentValid(g, N) {
        assert ParentValid(f, N);
      }
    }
    assert TuplesValid(g) by {
      forall u | 0 <= u < |g.tuples| ensures TupleValid(g, u) {
        if u < t {
          assert TupleValid(f, u);
        }
      }
    }
  }

  /** The canonical place of a tuple has as many keys as its last level is deep plus one. */
  lemma SignatureShape(f: Forest, t: nat)
    requires Valid(f) && t < |f.tuples|
    ensures |f.signatures[t].keys| == Leaf(f.signatures[t].length) + 1
    ensures |f.tuples[t]| == f.signatures[t].length
  {
    assert TupleValid(f, t);
  }

  /**
   * Within the tree of a length class, the entries of nodes above the last
   * level are nodes, and those at the last level are tuples.
   */
  lemma EntryKinds(f: Forest, N: nat, k: Value)
    requires Valid(f) && N < |f.nodes| && k in f.nodes[N]
    ensures k.Obj?
    ensures |f.paths[N].keys| < Leaf(f.paths[N].length) ==> f.nodes[N][k].Child? && f.nodes[N][k].node < |f.nodes|
    ensures |f.paths[N].keys| == Leaf(f.paths[N].length) ==> f.nodes[N][k].Cached? && f.nodes[N][k].tuple < |f.tuples|
  {
    assert EdgeValid(f, N, k);
  }

  /** Distinct tuples are cached at distinct places. */
  lemma SignaturesInjective(f: Forest, t: nat, u: nat)
    requires Valid(f) && t < |f.tuples| && u < |f.tuples|
    ensures f.signatures[t] == f.signatures[u] <==> t == u
  {
    assert TupleValid(f, t) && TupleValid(f, u);
  }

  /** A node's ancestor `j` keys below the root. */
  lemma {:induction false} Ancestor(f: Forest, N: nat, j: nat) returns (A: nat)
    requires Valid(f) && N < |f.nodes| && j <= |f.paths[N].keys|
    ensures A < |f.nodes| && f.paths[A] == Path(f.paths[N].length, f.paths[N].keys[..j])
    decreases |f.paths[N].keys| - j
  {
    var keys := f.paths[N].keys;
    if j == |keys| {
      A := N;
      assert keys[..j] == keys;
    } else {
      assert ParentValid(f, N);
      var P := f.parents[N];
      assert f.paths[P].keys[..j] == keys[..j];
      A := Ancestor(f, P, j);
    }
  }

  /**
   * The read-only part of the walk: from `node`, follow every key but the
   * last through child nodes and return what the last key finds.
   */
  function Descend(nodes: seq<map<Value, Entry>>, node: nat, keys: seq<Value>): (entry: Option<Entry>)
    requires node < |nodes|
    decreases |keys|
  {
    if keys == [] || keys[0] !in nodes[node] then None
    else if |keys| == 1 then Some(nodes[node][keys[0]])
    else match nodes[node][keys[0]]
      case Child(c) => if c < |nodes| then Descend(nodes, c, keys[1..]) else None
      case Cached(_) => None
  }

  /** The lookup of a tuple for a place: its length class's root, then the keys; a cached tuple or nothing. */
  function Find(f: Forest, place: Path): (t: Option<nat>) {
    if place.length in f.roots && f.roots[place.length] < |f.nodes| then
      match Descend(f.nodes, f.roots[place.length], place.keys)
      case Some(Cached(t)) => Some(t)
      case _ => None
    else None
  }

  /** Whatever the walk finds from a node is a tuple cached at the place the keys extend that node's place to. */
  lemma {:induction false} DescendSound(f: Forest, N: nat, keys: seq<Value>)
    requires Valid(f) && N < |f.nodes|
    ensures match Descend(f.nodes, N, keys)
            case Some(Cached(t)) => t < |f.tuples| && f.signatures[t] == Path(f.paths[N].length, f.paths[N].keys + keys)
            case _ => true
    decreases |keys|
  {
    if keys != [] && keys[0] in f.nodes[N] {
      assert EdgeValid(f, N, keys[0]);
      if |keys| > 1 && f.nodes[N][keys[0]].Child? {
        var c := f.nodes[N][keys[0]].node;
        DescendSound(f, c, keys[1..]);
        assert f.paths[N].keys + [keys[0]] + keys[1..] == f.paths[N].keys + keys;
      }
    }
  }

  /** A tuple cached at a place that extends a node's place is found by the walk from that node. */
  lemma {:induction false} DescendComplete(f: Forest, N: nat, keys: seq<Value>, t: nat)
    requires Valid(f) && N < |f.nodes|
    requires t < |f.tuples| && f.signatures[t] == Path(f.paths[N].length, f.paths[N].keys + keys)
    requires |f.paths[N].keys| + |keys| == Leaf(f.paths[N].length) + 1
    ensures Descend(f.nodes, N, keys) == Some(Cached(t))
    decreases |keys|
  {
    var p := f.paths[N];
    var s := f.signatures[t];
    var L := Leaf(p.length);
    assert TupleValid(f, t);
    var H := f.holders[t];
    if |keys| == 1 {
      assert s.keys[..L] == p.keys;
    } else {
      assert 0 < |keys| && |p.keys| < L;
      var A := Ancestor(f, H, |p.keys| + 1);
      assert s.keys[..L][..|p.keys| + 1] == p.keys + [keys[0]];
      assert f.paths[A] == Path(p.length, p.keys + [keys[0]]);
      ChildrenArePresent(f, N, keys[0]);
      assert f.paths[A].keys + keys[1..] == p.keys + keys;
      DescendComplete(f, A, keys[1..], t);
    }
  }

  /** Every tuple's length class has a root. */
  lemma SignatureHasRoot(f: Forest, t: nat)
    requires Valid(f) && t < |f.tuples|
    ensures f.signatures[t].length in f.roots
  {
    assert TupleValid(f, t);
    var R := Ancestor(f, f.holders[t], 0);
  }

  /**
   * The final lookup doubles as the cache-hit test: the walk for a place
   * finds a tuple exactly when a tuple is cached there, and then finds that one.
   */
  lemma FindIsCacheHit(f: Forest, place: Path)
    requires Valid(f)
    ensures Find(f, place).Some? <==> place in f.signatures
    ensures Find(f, place).Some? ==> Find(f, place).value < |f.tuples| && f.signatures[Find(f, place).value] == place
  {
    if place.length in f.roots {
      var root := f.roots[place.length];
      DescendSound(f, root, place.keys);
      assert f.paths[root].keys + place.keys == place.keys;
      match Descend(f.nodes, root, place.keys)
      case Some(Cached(t)) => assert f.signatures[t] in f.signatures;
      case _ =>
    }
    if place in f.signatures {
      var t :| 0 <= t < |f.signatures| && f.signatures[t] == place;
      SignatureHasRoot(f, t);
      assert TupleValid(f, t);
      DescendComplete(f, f.roots[place.length], place.keys, t);
    }
  }
}
