/**
 * The interning engine: one tree of weak maps per tuple length, walked and
 * extended by the tuple function that Tuple.for and Tuple.any are instances
 * of, plus the tag predicate Tuple.is.
 */
module Interning {
  import opened JsValues
  import opened Canonical
  import opened WeakTrie

  /** The element filter a tuple function is made with: nullableForm for Tuple.for, objectForm for Tuple.any. */
  datatype Mode = Strict | Permissive

  /** The two exceptions a tuple function throws. */
  datatype Error =
    | NotArrayLike  // "Tuples can only be created from Array-like objects"
    | InvalidKey    // the TypeError WeakMap.prototype.set throws for a primitive key

  datatype Result = Success(value: Value) | Failure(error: Error)

  /** The one-character strings of `text`, in order: the indexed elements of a string. */
  function Characters(text: string): (chars: seq<Value>)
    ensures |chars| == |text|
    ensures forall i :: 0 <= i < |text| ==> chars[i] == Str([text[i]])
  {
    seq(|text|, i requires 0 <= i < |text| => Str([text[i]]))
  }

  /**
   * The elements a tuple function reads from its argument, or None when it is
   * rejected: the argument must be truthy and have a `length`. `tuples` and
   * `boxes` are the elements of the tuples and the primitives of the boxes
   * created so far. Every array-like object of the caller's is accepted, the
   * empty one included; a non-empty string yields its characters, while ""
   * is falsy and no other primitive has a length. Of the engine's own
   * objects a tuple yields its elements and a String box the characters of
   * its string (the empty one included, since a box is truthy), while a
   * Number or Boolean box, a sentinel and Object.prototype have no length;
   * an object made by `Object.create` reads `length` and the elements
   * through its prototype.
   */
  function Elements(tuples: seq<seq<Value>>, boxes: seq<Value>, arg: Argument): (r: Option<seq<Value>>)
    ensures arg.ArrayLikeObject? ==> r == Some(arg.elements)
    ensures arg.Plain? && !arg.v.Obj? ==> (r.Some? <==> arg.v.Str? && arg.v.text != "")
    ensures arg.Plain? && arg.v.Str? && r.Some? ==> r.value == Characters(arg.v.text)
    ensures arg.Plain? && arg.v.Obj? ==> r == ObjectElements(tuples, boxes, arg.v.ref)
  {
    match arg
    case ArrayLikeObject(elements) => Some(elements)
    case Plain(v) =>
      match v
      case Str(text) => if text != "" then Some(Characters(text)) else None
      case Obj(ref) => ObjectElements(tuples, boxes, ref)
      case _ => None
  }

  /**
   * `slice.call(r, 0)` for one of the engine's objects, or None when
   * `r.length` is undefined. The elements are those of the object at the
   * end of the prototype chain of `r`, the only one that can have a length.
   */
  function ObjectElements(tuples: seq<seq<Value>>, boxes: seq<Value>, r: ObjectRef): (elements: Option<seq<Value>>)
    ensures var origin := Chain(r)[|Chain(r)| - 1];
            match origin
            case TupleObject(t) => elements == if t < |tuples| then Some(tuples[t]) else None
            case Box(b) =>
              elements == if b < |boxes| && boxes[b].Str? then Some(Characters(boxes[b].text)) else None
            case _ => elements.None?
  {
    match r
    case TupleObject(t) => if t < |tuples| then Some(tuples[t]) else None
    case Box(b) => if b < |boxes| && boxes[b].Str? then Some(Characters(boxes[b].text)) else None
    case Derived(proto, _) => ObjectElements(tuples, boxes, proto)
    case _ => None
  }

  /** The key the filter of `mode` gives `v`, once the box registry holds the boxes it needs. */
  function KeyOf(mode: Mode, primitiveMap: map<string, ObjectRef>, v: Value): (k: Value)
    requires mode.Permissive? ==> HasBox(primitiveMap, v)
  {
    if mode.Strict? then NullableForm(v) else ObjectFormIn(primitiveMap, v)
  }

  /** The box registry holds every box the filter of `mode` needs for `items`. */
  predicate AllBoxed(mode: Mode, primitiveMap: map<string, ObjectRef>, items: seq<Value>) {
    mode.Permissive? ==> forall i :: 0 <= i < |items| ==> HasBox(primitiveMap, items[i])
  }

  /**
   * The keys a tuple function follows for `items`: one per element, and for
   * the empty input the key of `array[-1]`, which is undefined.
   */
  function KeysOf(mode: Mode, primitiveMap: map<string, ObjectRef>, items: seq<Value>): (keys: seq<Value>)
    requires AllBoxed(mode, primitiveMap, items)
    ensures |keys| == Leaf(|items|) + 1
    ensures |items| == 0 ==> keys == [Obj(UndefinedSentinel)]
    ensures forall i :: 0 <= i < |items| ==> keys[i] == KeyOf(mode, primitiveMap, items[i])
  {
    if |items| == 0 then [KeyOf(mode, primitiveMap, Undefined)]
    else seq(|items|, i requires 0 <= i < |items| => KeyOf(mode, primitiveMap, items[i]))
  }

  /** A key already determined stays the same as the box registry grows. */
  lemma KeyOfStable(mode: Mode, primitiveMap: map<string, ObjectRef>, larger: map<string, ObjectRef>, v: Value)
    requires mode.Permissive? ==> HasBox(primitiveMap, v)
    requires forall s :: s in primitiveMap ==> s in larger && larger[s] == primitiveMap[s]
    ensures mode.Permissive? ==> HasBox(larger, v)
    ensures KeyOf(mode, larger, v) == KeyOf(mode, primitiveMap, v)
  {
    if mode.Permissive? {
      ObjectFormStable(primitiveMap, larger, v);
    }
  }

  /**
   * `prefix` is the list of keys of the first elements of `items`, all of
   * them objects, with their boxes registered.
   */
  predicate Follows(mode: Mode, primitiveMap: map<string, ObjectRef>, items: seq<Value>, prefix: seq<Value>) {
    && |prefix| <= |items|
    && forall j :: 0 <= j < |prefix| ==>
         && (mode.Permissive? ==> HasBox(primitiveMap, items[j]))
         && prefix[j] == KeyOf(mode, primitiveMap, items[j])
         && prefix[j].Obj?
  }

  lemma FollowsStable(mode: Mode, primitiveMap: map<string, ObjectRef>, larger: map<string, ObjectRef>,
                      items: seq<Value>, prefix: seq<Value>)
    requires Follows(mode, primitiveMap, items, prefix)
    requires forall s :: s in primitiveMap ==> s in larger && larger[s] == primitiveMap[s]
    ensures Follows(mode, larger, items, prefix)
  {
    forall j | 0 <= j < |prefix|
      ensures (mode.Permissive? ==> HasBox(larger, items[j])) && KeyOf(mode, larger, items[j]) == KeyOf(mode, primitiveMap, items[j])
    {
      KeyOfStable(mode, primitiveMap, larger, items[j]);
    }
  }

  /** `prefix` extended by the key of the next element, an object. */
  lemma FollowsExtend(mode: Mode, primitiveMap: map<string, ObjectRef>, items: seq<Value>, prefix: seq<Value>, key: Value)
    requires Follows(mode, primitiveMap, items, prefix) && |prefix| < |items|
    requires mode.Permissive? ==> HasBox(primitiveMap, items[|prefix|])
    requires key == KeyOf(mode, primitiveMap, items[|prefix|]) && key.Obj?
    ensures Follows(mode, primitiveMap, items, prefix + [key])
  {
    var longer := prefix + [key];
    forall j | 0 <= j < |longer|
      ensures && (mode.Permissive? ==> HasBox(primitiveMap, items[j]))
              && longer[j] == KeyOf(mode, primitiveMap, items[j])
              && longer[j].Obj?
    {
      if j < |prefix| {
        assert longer[j] == prefix[j];
      }
    }
  }

  /** Where the tuple for `items` is cached: the length class and the keys. */
  function SignatureOf(mode: Mode, primitiveMap: map<string, ObjectRef>, items: seq<Value>): (place: Path)
    requires AllBoxed(mode, primitiveMap, items)
  {
    Path(|items|, KeysOf(mode, primitiveMap, items))
  }

  /** A signature already determined stays the same as the box registry grows. */
  lemma SignatureStable(mode: Mode, primitiveMap: map<string, ObjectRef>, larger: map<string, ObjectRef>, items: seq<Value>)
    requires AllBoxed(mode, primitiveMap, items)
    requires forall s :: s in primitiveMap ==> s in larger && larger[s] == primitiveMap[s]
    ensures AllBoxed(mode, larger, items)
    ensures SignatureOf(mode, larger, items) == SignatureOf(mode, primitiveMap, items)
  {
    forall i | 0 <= i < |items|
      ensures (mode.Permissive? ==> HasBox(larger, items[i])) && KeyOf(mode, larger, items[i]) == KeyOf(mode, primitiveMap, items[i])
    {
      KeyOfStable(mode, primitiveMap, larger, items[i]);
    }
    var k, k' := KeysOf(mode, primitiveMap, items), KeysOf(mode, larger, items);
    assert |k| == |k'|;
    assert forall i :: 0 <= i < |k| ==> k[i] == k'[i];
  }

  /** `array[almost]`: the last element, and undefined for the empty input. */
  function LastElement(items: seq<Value>): (last: Value) {
    if |items| > 0 then items[|items| - 1] else Undefined
  }

  /**
   * The order in which a tuple function applies objectForm to the elements
   * of its input, and so files their boxes: the last element first, for the
   * final key, then every other element in order, in the loop. For the empty
   * input it is `array[-1]` alone, which is undefined.
   */
  function FilingOrder(items: seq<Value>): (order: seq<Value>) {
    [LastElement(items)] + items[..Leaf(|items|)]
  }

  /** The filing order holds each element once per position, and nothing else but `array[-1]`. */
  lemma FilingOrderElements(items: seq<Value>)
    ensures |FilingOrder(items)| == Leaf(|items|) + 1 && FilingOrder(items)[0] == LastElement(items)
    ensures forall v :: v in items ==> v in FilingOrder(items)
    ensures forall v :: v in FilingOrder(items) ==> v in items || (|items| == 0 && v == Undefined)
  {
    assert |items| > 0 ==> items == items[..Leaf(|items|)] + [LastElement(items)];
  }

  /**
   * The registry (`primitiveMap`, `boxes`) has filed, since the registry
   * (`startMap`, `startBoxes`) a tuple function began with, the final key and
   * the first `count` elements of its loop.
   */
  predicate FiledThrough(primitiveMap: map<string, ObjectRef>, boxes: seq<Value>,
                         startMap: map<string, ObjectRef>, startBoxes: seq<Value>, items: seq<Value>, count: nat)
  {
    count <= |items| && Filing(primitiveMap, boxes) == Filed(startMap, startBoxes, [LastElement(items)] + items[..count])
  }

  /** The loop of a tuple function starts from the registry the final key left. */
  lemma FilingBegins(primitiveMap: map<string, ObjectRef>, boxes: seq<Value>,
                     startMap: map<string, ObjectRef>, startBoxes: seq<Value>, items: seq<Value>)
    requires Filing(primitiveMap, boxes) == FileBox(startMap, startBoxes, LastElement(items))
    ensures FiledThrough(primitiveMap, boxes, startMap, startBoxes, items, 0)
  {
    FiledStep(startMap, startBoxes, [], LastElement(items));
    assert [LastElement(items)] + items[..0] == [] + [LastElement(items)];
  }

  /** Each pass of the loop files the boxes of one more element, in order. */
  lemma FilingAdvances(primitiveMap: map<string, ObjectRef>, boxes: seq<Value>,
                       primitiveMap': map<string, ObjectRef>, boxes': seq<Value>,
                       startMap: map<string, ObjectRef>, startBoxes: seq<Value>, items: seq<Value>, index: nat)
    requires index < |items| && FiledThrough(primitiveMap, boxes, startMap, startBoxes, items, index)
    requires Filing(primitiveMap', boxes') == FileBox(primitiveMap, boxes, items[index])
    ensures FiledThrough(primitiveMap', boxes', startMap, startBoxes, items, index + 1)
  {
    FiledStep(startMap, startBoxes, [LastElement(items)] + items[..index], items[index]);
    assert [LastElement(items)] + items[..index + 1] == [LastElement(items)] + items[..index] + [items[index]];
  }

  /** When the loop has filed every element but the last, the registry is filed in the filing order. */
  lemma FilingCompletes(primitiveMap: map<string, ObjectRef>, boxes: seq<Value>,
                        startMap: map<string, ObjectRef>, startBoxes: seq<Value>, items: seq<Value>)
    requires FiledThrough(primitiveMap, boxes, startMap, startBoxes, items, Leaf(|items|))
    ensures Filing(primitiveMap, boxes) == Filed(startMap, startBoxes, FilingOrder(items))
  {
  }

  /**
   * Every box filed or found for the final key stays as it is while the loop
   * files the other elements.
   */
  lemma FilingAfterFinal(primitiveMap: map<string, ObjectRef>, boxes: seq<Value>, items: seq<Value>)
    ensures var middle := FileBox(primitiveMap, boxes, LastElement(items));
            var end := Filed(primitiveMap, boxes, FilingOrder(items));
            BoxesGrew(middle.primitiveMap, middle.boxes, end.primitiveMap, end.boxes)
  {
    var rest := items[..Leaf(|items|)];
    FiledAppend(primitiveMap, boxes, [LastElement(items)], rest);
    FiledStep(primitiveMap, boxes, [], LastElement(items));
    assert [] + [LastElement(items)] == [LastElement(items)];
    var middle := FileBox(primitiveMap, boxes, LastElement(items));
    FiledGrows(middle.primitiveMap, middle.boxes, rest);
  }

  /**
   * A tuple function that filed its input in the filing order, or changed
   * nothing for Tuple.for, created boxes only for elements, and none when
   * every element had its box.
   */
  lemma FilingOutcome(mode: Mode, primitiveMap: map<string, ObjectRef>, boxes: seq<Value>,
                      primitiveMap': map<string, ObjectRef>, boxes': seq<Value>, items: seq<Value>)
    requires mode.Strict? ==> primitiveMap' == primitiveMap && boxes' == boxes
    requires mode.Permissive? ==> Filing(primitiveMap', boxes') == Filed(primitiveMap, boxes, FilingOrder(items))
    ensures GrewFor(primitiveMap, boxes, primitiveMap', boxes', items)
    ensures mode.Strict? || AllBoxed(mode, primitiveMap, items) ==> primitiveMap' == primitiveMap && boxes' == boxes
  {
    if mode.Permissive? {
      var order := FilingOrder(items);
      FiledGrows(primitiveMap, boxes, order);
      FilingOrderElements(items);
      if |items| == 0 {
        assert order == [Undefined];
      } else {
        GrewForWiden(primitiveMap, boxes, primitiveMap', boxes', order, items);
        if AllBoxed(mode, primitiveMap, items) {
          forall i | 0 <= i < |order| ensures HasBox(primitiveMap, order[i]) {
            assert order[i] in items;
          }
        }
      }
    } else {
      assert boxes'[|boxes|..] == [];
    }
  }

  /**
   * After Tuple.any([1, '1']) from the initial state, the one box is a String
   * box, since the final element is filed first; so a later
   * Tuple.any(Tuple.element(1)) reads the elements of new String('1').
   */
  lemma FinalElementFiledFirst()
    ensures var r := Filed(map[], [], FilingOrder([Num("1"), Str("1")]));
            && r == Filing(map["1" := Box(0)], [Str("1")])
            && Elements([], r.boxes, Plain(Obj(Box(0)))) == Some([Str("1")])
  {
    var order := FilingOrder([Num("1"), Str("1")]);
    assert order == [Str("1")] + [Num("1")];
    var first := FileBox(map[], [], Str("1"));
    assert first == Filing(map["1" := Box(0)], [Str("1")]);
    FiledStep(map[], [], [], Str("1"));
    assert [] + [Str("1")] == [Str("1")];
    FiledStep(map[], [], [Str("1")], Num("1"));
    assert HasBox(first.primitiveMap, Num("1"));
    StringBoxElements();
  }

  /** The elements of new String('1'), filed as box 0, are its one character. */
  lemma StringBoxElements()
    ensures Elements([], [Str("1")], Plain(Obj(Box(0)))) == Some([Str("1")])
  {
    assert Characters("1") == [Str("1")];
  }

  /**
   * When the loop has followed the keys of all elements but the last, the
   * place of the input is those keys and the final key, and the input is
   * accepted exactly when the final key is an object.
   */
  lemma CompletePlace(mode: Mode, primitiveMap: map<string, ObjectRef>, items: seq<Value>, prefix: seq<Value>, final: Value)
    requires Follows(mode, primitiveMap, items, prefix) && |prefix| == Leaf(|items|)
    requires mode.Permissive? ==> HasBox(primitiveMap, LastElement(items))
    requires final == KeyOf(mode, primitiveMap, LastElement(items))
    ensures AllBoxed(mode, primitiveMap, items)
    ensures SignatureOf(mode, primitiveMap, items).keys == prefix + [final]
    ensures AllObjects(SignatureOf(mode, primitiveMap, items).keys) <==> final.Obj?
    ensures !final.Obj? ==>
              && PrimitivePrefix(SignatureOf(mode, primitiveMap, items).keys) == |prefix|
              && SignatureOf(mode, primitiveMap, items).keys[..|prefix|] == prefix
  {
    var keys := SignatureOf(mode, primitiveMap, items).keys;
    assert keys == prefix + [final];
    assert keys[..|prefix|] == prefix;
    AllObjectsAppend(prefix, final);
  }

  /**
   * When the loop stops at a refused key, the keys followed so far are the
   * longest prefix of the input's keys a WeakMap accepts, and the input is
   * not accepted.
   */
  lemma RefusedPlace(mode: Mode, primitiveMap: map<string, ObjectRef>, items: seq<Value>, prefix: seq<Value>)
    requires mode.Strict?
    requires Follows(mode, primitiveMap, items, prefix) && |prefix| < Leaf(|items|)
    requires !KeyOf(mode, primitiveMap, items[|prefix|]).Obj?
    ensures AllBoxed(mode, primitiveMap, items)
    ensures SignatureOf(mode, primitiveMap, items).keys[..|prefix|] == prefix
    ensures PrimitivePrefix(SignatureOf(mode, primitiveMap, items).keys) == |prefix|
    ensures !AllObjects(SignatureOf(mode, primitiveMap, items).keys)
  {
    var keys := SignatureOf(mode, primitiveMap, items).keys;
    assert keys[..|prefix|] == prefix;
    assert !keys[|prefix|].Obj?;
  }

  /**
   * Two inputs have the same signature exactly when they have the same length
   * and the same key at every position, whichever filters produced the keys
   * (Tuple.for and Tuple.any share one forest).
   */
  lemma SignatureEquality(mode: Mode, mode': Mode, primitiveMap: map<string, ObjectRef>, a: seq<Value>, b: seq<Value>)
    requires AllBoxed(mode, primitiveMap, a) && AllBoxed(mode', primitiveMap, b)
    ensures SignatureOf(mode, primitiveMap, a) == SignatureOf(mode', primitiveMap, b) <==>
              && |a| == |b|
              && forall i :: 0 <= i < |a| ==> KeyOf(mode, primitiveMap, a[i]) == KeyOf(mode', primitiveMap, b[i])
  {
    var ka, kb := KeysOf(mode, primitiveMap, a), KeysOf(mode', primitiveMap, b);
    if |a| == |b| && forall i :: 0 <= i < |a| ==> KeyOf(mode, primitiveMap, a[i]) == KeyOf(mode', primitiveMap, b[i]) {
      assert ka == kb by {
        if |a| > 0 {
          assert forall i :: 0 <= i < |ka| ==> ka[i] == kb[i];
        }
      }
    }
  }

  /**
   * With the filter of Tuple.for, two inputs share a signature exactly when
   * they agree element by element, except that null may stand where the null
   * sentinel stands and undefined where the undefined sentinel stands.
   */
  lemma StrictSignatureEquality(primitiveMap: map<string, ObjectRef>, a: seq<Value>, b: seq<Value>)
    ensures SignatureOf(Strict, primitiveMap, a) == SignatureOf(Strict, primitiveMap, b) <==>
              && |a| == |b|
              && forall i :: 0 <= i < |a| ==> a[i] == b[i] || SentinelAlias(a[i], b[i]) || SentinelAlias(b[i], a[i])
  {
    SignatureEquality(Strict, Strict, primitiveMap, a, b);
    forall i | 0 <= i < |a| && i < |b|
      ensures KeyOf(Strict, primitiveMap, a[i]) == KeyOf(Strict, primitiveMap, b[i]) <==>
                a[i] == b[i] || SentinelAlias(a[i], b[i]) || SentinelAlias(b[i], a[i])
    {
      NullableFormCollisions(a[i], b[i]);
    }
  }

  /**
   * A hit can return a tuple whose elements differ from the input: the null
   * element of Tuple.for([null]) and the null sentinel that Tuple.element(null)
   * returns lead to the same tuple, whichever call created it.
   */
  lemma NullMeetsItsSentinel(primitiveMap: map<string, ObjectRef>)
    ensures SignatureOf(Strict, primitiveMap, [Null]) == SignatureOf(Strict, primitiveMap, [Obj(NullSentinel)])
    ensures SignatureOf(Strict, primitiveMap, [Null]) == SignatureOf(Permissive, primitiveMap, [Obj(NullSentinel)])
  {
    assert SignatureOf(Strict, primitiveMap, [Null]).keys == [Obj(NullSentinel)];
    assert SignatureOf(Strict, primitiveMap, [Obj(NullSentinel)]).keys == [Obj(NullSentinel)];
    assert SignatureOf(Permissive, primitiveMap, [Obj(NullSentinel)]).keys == [Obj(NullSentinel)];
  }

  /**
   * Inputs of objects, null and undefined have the same signature under both
   * filters, so Tuple.for and Tuple.any return the same tuple for them.
   */
  lemma FiltersAgreeOnObjects(primitiveMap: map<string, ObjectRef>, items: seq<Value>)
    requires forall i :: 0 <= i < |items| ==> !IsPrimitive(items[i])
    ensures AllBoxed(Permissive, primitiveMap, items)
    ensures SignatureOf(Strict, primitiveMap, items) == SignatureOf(Permissive, primitiveMap, items)
  {
    SignatureEquality(Strict, Permissive, primitiveMap, items, items);
  }

  /** Reversing three elements whose outer keys differ changes the signature: tuples are ordered. */
  lemma ReversalChangesSignature(mode: Mode, primitiveMap: map<string, ObjectRef>, a: Value, b: Value, c: Value)
    requires mode.Permissive? ==> HasBox(primitiveMap, a) && HasBox(primitiveMap, b) && HasBox(primitiveMap, c)
    requires KeyOf(mode, primitiveMap, a) != KeyOf(mode, primitiveMap, c)
    ensures SignatureOf(mode, primitiveMap, [a, b, c]) != SignatureOf(mode, primitiveMap, [c, b, a])
  {
    assert KeysOf(mode, primitiveMap, [a, b, c])[0] != KeysOf(mode, primitiveMap, [c, b, a])[0];
  }

  /**
   * How many leading keys a WeakMap accepts: the index of the first
   * primitive key, or the number of keys when there is none.
   */
  function PrimitivePrefix(keys: seq<Value>): (p: nat)
    ensures p <= |keys|
    ensures forall j :: 0 <= j < p ==> keys[j].Obj?
    ensures p < |keys| ==> !keys[p].Obj?
  {
    if keys == [] || !keys[0].Obj? then 0 else 1 + PrimitivePrefix(keys[1..])
  }

  /** Every key is an object, so a WeakMap accepts them all. */
  predicate AllObjects(keys: seq<Value>) {
    forall i :: 0 <= i < |keys| ==> keys[i].Obj?
  }

  lemma AllObjectsAppend(keys: seq<Value>, key: Value)
    ensures AllObjects(keys + [key]) <==> AllObjects(keys) && key.Obj?
  {
    if AllObjects(keys + [key]) {
      assert (keys + [key])[|keys|] == key;
      forall i | 0 <= i < |keys| ensures keys[i].Obj? {
        assert (keys + [key])[i] == keys[i];
      }
    }
  }

  /** The prototype chain of `r`: `r` itself, then the objects it inherits from, in order. */
  function Chain(r: ObjectRef): (chain: seq<ObjectRef>)
    ensures |chain| >= 1 && chain[0] == r
    ensures forall i :: 0 <= i < |chain| - 1 ==> chain[i].Derived? && chain[i + 1] == chain[i].proto
    ensures !chain[|chain| - 1].Derived?
  {
    if r.Derived? then [r] + Chain(r.proto) else [r]
  }

  /**
   * `r[TUPLE]`, true or undefined: an own property of every tuple, otherwise
   * looked up on the prototype of an object made by `Object.create`.
   */
  function Tagged(r: ObjectRef): (tagged: bool)
    ensures tagged <==> exists o :: o in Chain(r) && o.TupleObject?
  {
    match r
    case TupleObject(_) => assert r in Chain(r); true
    case Derived(proto, _) =>
      var inherited := Tagged(proto);
      ChainStep(r);
      inherited
    case _ => false
  }

  /** Past the first object of a derived chain come the objects of its prototype's chain. */
  lemma ChainStep(r: ObjectRef)
    requires r.Derived?
    ensures (exists o :: o in Chain(r) && o.TupleObject?) <==> (exists o :: o in Chain(r.proto) && o.TupleObject?)
  {
    assert Chain(r) == [r] + Chain(r.proto);
  }

  /**
   * Tuple.is: null and undefined are refused before the read; otherwise
   * `possible[TUPLE]`, which is true exactly when a tuple lies on the
   * prototype chain of an object, and undefined for a primitive, whose
   * wrapper prototypes carry no tag.
   */
  function Is(possible: Value): (tagged: bool)
    ensures tagged <==> possible.Obj? && exists o :: o in Chain(possible.ref) && o.TupleObject?
    ensures possible.Obj? && possible.ref.TupleObject? ==> tagged
  {
    if possible.Null? || possible.Undefined? then false
    else possible.Obj? && Tagged(possible.ref)
  }

  /**
   * Every tuple, read back with the filter it was created with, has the
   * signature it is cached at: its own elements have the keys that lead to it.
   */
  ghost predicate TuplesKeyed(modes: seq<Mode>, primitiveMap: map<string, ObjectRef>,
                              tuples: seq<seq<Value>>, signatures: seq<Path>) {
    && |modes| == |tuples| && |signatures| == |tuples|
    && forall t :: 0 <= t < |tuples| ==>
         && AllBoxed(modes[t], primitiveMap, tuples[t])
         && SignatureOf(modes[t], primitiveMap, tuples[t]) == signatures[t]
  }

  lemma TuplesKeyedStable(modes: seq<Mode>, primitiveMap: map<string, ObjectRef>, larger: map<string, ObjectRef>,
                          tuples: seq<seq<Value>>, signatures: seq<Path>)
    requires TuplesKeyed(modes, primitiveMap, tuples, signatures)
    requires forall s :: s in primitiveMap ==> s in larger && larger[s] == primitiveMap[s]
    ensures TuplesKeyed(modes, larger, tuples, signatures)
  {
    forall t | 0 <= t < |tuples|
      ensures AllBoxed(modes[t], larger, tuples[t]) && SignatureOf(modes[t], larger, tuples[t]) == signatures[t]
    {
      SignatureStable(modes[t], primitiveMap, larger, tuples[t]);
    }
  }

  /**
   * What one interning call of `items` did, from the forest `f` and the box
   * registry (`primitiveMap`, `boxes`) before it to the forest `g` and the
   * registry (`primitiveMap'`, `boxes'`) after it. Each key has its box. A
   * returned tuple is what a lookup of the input's place then finds: the
   * tuple found there before the call, with the forest unchanged, or else a
   * new tuple holding the input's own elements. A refused input creates no
   * tuple. The only boxes created wrap elements of the input, and none are
   * created by Tuple.for or when every box existed. The only weak maps
   * created are the root of the input's length class and maps along its
   * keys before the first refused one.
   */
  ghost predicate InternedFrom(mode: Mode, items: seq<Value>, r: Result,
                               f: Forest, primitiveMap: map<string, ObjectRef>, boxes: seq<Value>,
                               g: Forest, primitiveMap': map<string, ObjectRef>, boxes': seq<Value>)
  {
    && AllBoxed(mode, primitiveMap', items)
    && GrewFor(primitiveMap, boxes, primitiveMap', boxes', items)
    && (mode.Strict? || AllBoxed(mode, primitiveMap, items) ==> primitiveMap' == primitiveMap && boxes' == boxes)
    && (mode.Permissive? ==> Filing(primitiveMap', boxes') == Filed(primitiveMap, boxes, FilingOrder(items)))
    && var place := SignatureOf(mode, primitiveMap', items);
    && GrownAlong(f, g, |items|, place.keys[..PrimitivePrefix(place.keys)])
    && (r.Success? ==> r.value.Obj? && r.value.ref.TupleObject? && Find(g, place) == Some(r.value.ref.id))
    && (r.Success? && Find(f, place).Some? ==> r.value.ref.id == Find(f, place).value && g == f)
    && (r.Success? && Find(f, place).None? ==>
          && r.value.ref.id == |f.tuples|
          && g.tuples == f.tuples + [items]
          && g.signatures == f.signatures + [place])
    && (r.Failure? ==> g.tuples == f.tuples && g.signatures == f.signatures)
  }

  /** The outcome of an input refused during the loop, whose forest `g` the loop left. */
  lemma RefusedOutcome(mode: Mode, items: seq<Value>, f: Forest, primitiveMap: map<string, ObjectRef>, boxes: seq<Value>,
                       g: Forest, primitiveMap': map<string, ObjectRef>, boxes': seq<Value>, prefix: seq<Value>)
    requires AllBoxed(mode, primitiveMap', items)
    requires GrewFor(primitiveMap, boxes, primitiveMap', boxes', items)
    requires mode.Strict? || AllBoxed(mode, primitiveMap, items) ==> primitiveMap' == primitiveMap && boxes' == boxes
    requires mode.Permissive? ==> Filing(primitiveMap', boxes') == Filed(primitiveMap, boxes, FilingOrder(items))
    requires g.tuples == f.tuples && g.signatures == f.signatures
    requires GrownAlong(f, g, |items|, prefix)
    requires PrimitivePrefix(SignatureOf(mode, primitiveMap', items).keys) == |prefix|
    requires SignatureOf(mode, primitiveMap', items).keys[..|prefix|] == prefix
    ensures InternedFrom(mode, items, Failure(InvalidKey), f, primitiveMap, boxes, g, primitiveMap', boxes')
  {
  }

  /**
   * The outcome of an input whose keys the loop followed up to `prefix`,
   * with the final key `final`, once the last lookup has answered as
   * SettledLookup says.
   */
  lemma SettledOutcome(mode: Mode, items: seq<Value>, r: Result,
                       f: Forest, primitiveMap: map<string, ObjectRef>, boxes: seq<Value>,
                       g: Forest, primitiveMap': map<string, ObjectRef>, boxes': seq<Value>,
                       final: Value, prefix: seq<Value>)
    requires AllBoxed(mode, primitiveMap', items)
    requires GrewFor(primitiveMap, boxes, primitiveMap', boxes', items)
    requires mode.Strict? || AllBoxed(mode, primitiveMap, items) ==> primitiveMap' == primitiveMap && boxes' == boxes
    requires mode.Permissive? ==> Filing(primitiveMap', boxes') == Filed(primitiveMap, boxes, FilingOrder(items))
    requires GrownAlong(f, g, |items|, prefix)
    requires SignatureOf(mode, primitiveMap', items).keys == prefix + [final]
    requires AllObjects(SignatureOf(mode, primitiveMap', items).keys) <==> final.Obj?
    requires !final.Obj? ==>
               && PrimitivePrefix(SignatureOf(mode, primitiveMap', items).keys) == |prefix|
               && SignatureOf(mode, primitiveMap', items).keys[..|prefix|] == prefix
    requires (r.Success? <==> final.Obj?) && (r.Success? ==> r.value.Obj? && r.value.ref.TupleObject?)
    requires var place := SignatureOf(mode, primitiveMap', items);
             && (r.Success? ==> Find(g, place) == Some(r.value.ref.id))
             && (r.Success? && Find(f, place).Some? ==> r.value.ref.id == Find(f, place).value && g == f)
             && (r.Success? && Find(f, place).None? ==>
                   && r.value.ref.id == |f.tuples|
                   && g.tuples == f.tuples + [items]
                   && g.signatures == f.signatures + [place])
             && (r.Failure? ==> g.tuples == f.tuples && g.signatures == f.signatures)
    ensures InternedFrom(mode, items, r, f, primitiveMap, boxes, g, primitiveMap', boxes')
  {
    var place := SignatureOf(mode, primitiveMap', items);
    if r.Success? {
      assert place.keys[..PrimitivePrefix(place.keys)] == prefix + [final];
    }
    PrefixOfLonger(prefix, prefix, final);
    GrownAlongWiden(f, g, |items|, prefix, place.keys[..PrimitivePrefix(place.keys)]);
  }

  /**
   * The last lookup of an input at `place`, from the weak map `node` of the
   * forest `l` that the loop left (`l` is `f` when `untouched`): a tuple is
   * returned exactly as a lookup of `place` in `f` finds it, or is new.
   */
  lemma SettledLookup(r: Result, items: seq<Value>, place: Path, f: Forest, l: Forest, g: Forest,
                      node: nat, final: Value, untouched: bool)
    requires WeakTrie.Valid(f) && WeakTrie.Valid(l) && WeakTrie.Valid(g)
    requires l.tuples == f.tuples && l.signatures == f.signatures
    requires node < |l.nodes|
    requires untouched ==> l == f
    requires !untouched ==> l.nodes[node] == map[]
    requires r.Success? ==>
               && r.value.Obj? && r.value.ref.TupleObject?
               && r.value.ref.id < |g.tuples|
               && g.signatures[r.value.ref.id] == place
    requires Find(l, place).Some? ==>
               && final in l.nodes[node]
               && r == Success(Obj(TupleObject(Find(l, place).value)))
               && g == l
    requires r.Success? && Find(l, place).None? ==>
               && r.value.ref.id == |l.tuples|
               && g.tuples == l.tuples + [items]
               && g.signatures == l.signatures + [place]
    ensures r.Success? ==> Find(g, place) == Some(r.value.ref.id)
    ensures r.Success? && Find(f, place).Some? ==> r.value.ref.id == Find(f, place).value && g == f
    ensures r.Success? && Find(f, place).None? ==>
              && r.value.ref.id == |f.tuples|
              && g.tuples == f.tuples + [items]
              && g.signatures == f.signatures + [place]
  {
    FindIsCacheHit(f, place);
    FindIsCacheHit(l, place);
    FindIsCacheHit(g, place);
    if Find(f, place).Some? {
      SignaturesInjective(l, Find(f, place).value, Find(l, place).value);
    }
    if r.Success? {
      SignaturesInjective(g, r.value.ref.id, Find(g, place).value);
    }
  }

  /**
   * The process-wide state of the engine: `maps` (the root of each length
   * class), the trie's weak maps, the tuples, and `primitiveMap` with the
   * boxes it files. Weak maps are modelled as ordinary maps.
   */
  class Registry {
    /** `maps`: the node id of the root weak map of each length class. */
    var roots: map<nat, nat>
    /** The trie's weak maps, by node id. */
    var nodes: seq<map<Value, Entry>>
    /** The frozen, tagged tuples, by tuple id: their elements. */
    var tuples: seq<seq<Value>>
    /** `primitiveMap`: the box filed under each string form. */
    var primitiveMap: map<string, ObjectRef>
    /** The primitive each box wraps, by box id. */
    var boxes: seq<Value>

    /** The place of each node in the forest. */
    ghost var paths: seq<Path>
    /** The node whose weak map holds each non-root node. */
    ghost var parents: seq<nat>
    /** The place each tuple is cached at. */
    ghost var signatures: seq<Path>
    /** The node whose weak map holds each tuple. */
    ghost var holders: seq<nat>
    /** The filter each tuple was created with. */
    ghost var modes: seq<Mode>

    /** The trie part of the state, as one value. */
    ghost function Trie(): Forest
      reads this
    {
      Forest(roots, nodes, tuples, paths, parents, signatures, holders)
    }

    ghost predicate Valid()
      reads this
    {
      && BoxesValid(primitiveMap, boxes)
      && WeakTrie.Valid(Trie())
      && TuplesKeyed(modes, primitiveMap, tuples, signatures)
    }

    /** The engine's state when the module is first loaded: no trie, no tuples, no boxes. */
    constructor ()
      ensures Valid()
      ensures roots == map[] && nodes == [] && tuples == [] && primitiveMap == map[] && boxes == []
    {
      roots, nodes, tuples, primitiveMap, boxes := map[], [], [], map[], [];
      paths, parents, signatures, holders, modes := [], [], [], [], [];
      EmptyValid();
    }

    /**
     * objectForm (Tuple.element): sentinels for null, undefined and NaN, the
     * box filed under the string form for other primitives, created and filed
     * on a miss, and objects unchanged. Only the registry's own entries count
     * as hits.
     */
    method ObjectForm(v: Value) returns (k: Value)
      requires Valid()
      modifies this`primitiveMap, this`boxes
      ensures Valid()
      ensures HasBox(primitiveMap, v) && k == ObjectFormIn(primitiveMap, v)
      ensures HasBox(old(primitiveMap), v) ==> primitiveMap == old(primitiveMap) && boxes == old(boxes)
      ensures !HasBox(old(primitiveMap), v) ==>
                && primitiveMap == old(primitiveMap)[StringForm(v) := Box(|old(boxes)|)]
                && boxes == old(boxes) + [v]
    {
      if v.Null? {
        k := Obj(NullSentinel);
      } else if v.Undefined? {
        k := Obj(UndefinedSentinel);
      } else if IsNaN(v) {
        k := Obj(NaNSentinel);
      } else if IsPrimitive(v) {
        var form := StringForm(v);
        if form in primitiveMap {
          k := Obj(primitiveMap[form]);
        } else {
          var box := Box(|boxes|);
          ghost var registry := primitiveMap;
          primitiveMap := primitiveMap[form := box];
          boxes := boxes + [v];
          k := Obj(box);
          TuplesKeyedStable(modes, registry, primitiveMap, tuples, signatures);
        }
      } else {
        k := v;
      }
    }

    /** Applies the element filter of `mode`. */
    method Canonicalize(mode: Mode, v: Value) returns (k: Value)
      requires Valid()
      modifies this`primitiveMap, this`boxes
      ensures Valid()
      ensures mode.Strict? ==> primitiveMap == old(primitiveMap) && boxes == old(boxes)
      ensures mode.Permissive? ==> Filing(primitiveMap, boxes) == FileBox(old(primitiveMap), old(boxes), v)
      ensures mode.Permissive? ==> HasBox(primitiveMap, v)
      ensures k == KeyOf(mode, primitiveMap, v)
    {
      if mode.Strict? {
        k := NullableForm(v);
      } else {
        k := ObjectForm(v);
      }
    }

    /** `maps[length] || (maps[length] = new WeakMap())`. */
    method RootFor(length: nat) returns (root: nat)
      requires Valid()
      modifies this`roots, this`nodes, this`paths, this`parents
      ensures Valid() && Extends(old(Trie()), Trie())
      ensures root < |nodes| && length in roots && roots[length] == root && paths[root] == Path(length, [])
      ensures length in old(roots) ==> Trie() == old(Trie())
      ensures length !in old(roots) ==> Trie() == AddRoot(old(Trie()), length) && nodes[root] == map[]
      ensures GrownAlong(old(Trie()), Trie(), length, [])
    {
      if length in roots {
        root := roots[length];
      } else {
        AddRootValid(Trie(), length);
        root := |nodes|;
        roots := roots[length := root];
        nodes := nodes + [map[]];
        paths := paths + [Path(length, [])];
        parents := parents + [0];
      }
    }

    /** `next = new WeakMap(); map.set(key, next)`, for a key that is an object. */
    method AddNode(parent: nat, key: Value) returns (child: nat)
      requires Valid()
      requires parent < |nodes| && key.Obj? && key !in nodes[parent]
      requires |paths[parent].keys| < Leaf(paths[parent].length)
      modifies this`nodes, this`paths, this`parents
      ensures Valid() && Extends(old(Trie()), Trie())
      ensures Trie() == AddChild(old(Trie()), parent, key)
      ensures child == |old(nodes)| && child < |nodes| && nodes[child] == map[]
      ensures paths[child] == Path(old(paths)[parent].length, old(paths)[parent].keys + [key])
    {
      AddChildValid(Trie(), parent, key);
      var p := paths[parent];
      child := |nodes|;
      nodes := nodes[parent := nodes[parent][key := Child(child)]] + [map[]];
      paths := paths + [Path(p.length, p.keys + [key])];
      parents := parents + [parent];
    }

    /**
     * `tuple = slice.call(array, 0)`, tagged and frozen, then
     * `map.set(final, tuple)`, for a key that is an object.
     */
    method CacheTuple(mode: Mode, holder: nat, key: Value, items: seq<Value>) returns (t: nat)
      requires Valid()
      requires holder < |nodes| && key.Obj? && key !in nodes[holder]
      requires |paths[holder].keys| == Leaf(paths[holder].length) && |items| == paths[holder].length
      requires AllBoxed(mode, primitiveMap, items)
      requires SignatureOf(mode, primitiveMap, items) == Path(|items|, paths[holder].keys + [key])
      modifies this`nodes, this`tuples, this`signatures, this`holders, this`modes
      ensures Valid() && Extends(old(Trie()), Trie())
      ensures Trie() == AddTuple(old(Trie()), holder, key, items)
      ensures t == |old(tuples)| && tuples == old(tuples) + [items]
      ensures signatures == old(signatures) + [Path(|items|, old(paths)[holder].keys + [key])]
      ensures modes == old(modes) + [mode]
    {
      AddTupleValid(Trie(), holder, key, items);
      var p := paths[holder];
      t := |tuples|;
      nodes := nodes[holder := nodes[holder][key := Cached(t)]];
      tuples := tuples + [items];
      signatures := signatures + [Path(p.length, p.keys + [key])];
      holders := holders + [holder];
      modes := modes + [mode];
    }

    /**
     * The function tupleFunction returns, for the filter of `mode`: Tuple.for
     * is `TupleFunction(Strict, _)` and Tuple.any is `TupleFunction(Permissive, _)`.
     * An argument that is not array-like is refused before anything changes;
     * the elements of any other are interned.
     */
    method TupleFunction(mode: Mode, arg: Argument) returns (r: Result)
      requires Valid()
      modifies this
      ensures Valid() && Extends(old(Trie()), Trie())
      ensures Elements(old(tuples), old(boxes), arg).None? ==>
                && r == Failure(NotArrayLike)
                && Trie() == old(Trie()) && primitiveMap == old(primitiveMap) && boxes == old(boxes)
      ensures Elements(old(tuples), old(boxes), arg).Some? ==>
                && Interned(mode, Elements(old(tuples), old(boxes), arg).value, r)
                && InternedFrom(mode, Elements(old(tuples), old(boxes), arg).value, r,
                                old(Trie()), old(primitiveMap), old(boxes), Trie(), primitiveMap, boxes)
    {
      var elements := Elements(tuples, boxes, arg);
      if elements.None? {
        return Failure(NotArrayLike);
      }
      r := Intern(mode, elements.value);
    }

    /**
     * What the state after interning `items` with the filter of `mode` says
     * of the result `r`: each key has its box; the result is a tuple exactly
     * when every key is an object, and then it is the tuple cached at the
     * input's place, as long as the input and with the same keys for its
     * own elements under the filter it was made with; a refused key
     * (Tuple.for only) leaves the weak map reached before it in place. What
     * the call changed is stated by InternedFrom.
     */
    ghost predicate Interned(mode: Mode, items: seq<Value>, r: Result)
      reads this
    {
      && AllBoxed(mode, primitiveMap, items)
      && var place := SignatureOf(mode, primitiveMap, items);
      && Sized(Trie())
      && (r.Success? <==> AllObjects(place.keys))
      && (r.Success? ==>
            && Is(r.value)
            && r.value.ref.TupleObject?
            && r.value.ref.id < |tuples|
            && signatures[r.value.ref.id] == place
            && |tuples[r.value.ref.id]| == |items|
            && r.value.ref.id < |modes|
            && AllBoxed(modes[r.value.ref.id], primitiveMap, tuples[r.value.ref.id])
            && SignatureOf(modes[r.value.ref.id], primitiveMap, tuples[r.value.ref.id]) == place)
      && (r.Failure? ==>
            && r.error == InvalidKey
            && mode.Strict?
            && HasNode(Trie(), Path(|items|, place.keys[..PrimitivePrefix(place.keys)])))
    }


    /**
     * Two successive interning calls, of `a` with the filter of `mode` and
     * of `b` with the filter of `mode'`, when both return tuples: they return
     * the identical tuple exactly when the two inputs have the same
     * signature, and then the second call changes nothing in the forest.
     */
    method InternBoth(mode: Mode, a: seq<Value>, mode': Mode, b: seq<Value>)
      returns (first: Result, second: Result, ghost between: Forest)
      requires Valid()
      modifies this
      ensures Valid()
      ensures AllBoxed(mode, primitiveMap, a) && AllBoxed(mode', primitiveMap, b)
      ensures first.Success? && second.Success? ==>
                (second == first <==> SignatureOf(mode, primitiveMap, a) == SignatureOf(mode', primitiveMap, b))
      ensures first.Success? && SignatureOf(mode, primitiveMap, a) == SignatureOf(mode', primitiveMap, b) ==>
                second == first && Trie() == between
    {
      first := Intern(mode, a);
      between := Trie();
      ghost var registry := primitiveMap;
      second := Intern(mode', b);
      SignatureStable(mode, registry, primitiveMap, a);
      if first.Success? {
        ghost var placeA, placeB := SignatureOf(mode, primitiveMap, a), SignatureOf(mode', primitiveMap, b);
        ghost var t := first.value.ref.id;
        assert signatures[t] == placeA;
        if second.Success? {
          ghost var u := second.value.ref.id;
          SignaturesInjective(Trie(), t, u);
        }
      }
    }

    /** The body of the tuple function for the elements `items` of an array-like argument. */
    method Intern(mode: Mode, items: seq<Value>) returns (r: Result)
      requires Valid()
      modifies this
      ensures Valid() && Extends(old(Trie()), Trie())
      ensures Interned(mode, items, r)
      ensures InternedFrom(mode, items, r, old(Trie()), old(primitiveMap), old(boxes), Trie(), primitiveMap, boxes)
    {
      ghost var initial, registry, boxed := Trie(), primitiveMap, boxes;
      var final, node, failed, prefix, untouched := Locate(mode, items);
      if failed {
        RefusedPlace(mode, primitiveMap, items, prefix);
        ghost var place := SignatureOf(mode, primitiveMap, items);
        assert Trie().paths[node] == Path(|items|, place.keys[..PrimitivePrefix(place.keys)]);
        RefusedOutcome(mode, items, initial, registry, boxed, Trie(), primitiveMap, boxes, prefix);
        return Failure(InvalidKey);
      }
      r := Finish(mode, items, final, node, prefix, untouched, initial, registry, boxed);
    }

    /**
     * The tuple function after its loop reached `node` along the whole of
     * `prefix`: Settle, and what the call as a whole did since the forest
     * `initial` and the registry (`registry`, `boxed`) it began with.
     */
    method Finish(mode: Mode, items: seq<Value>, final: Value, node: nat, ghost prefix: seq<Value>, ghost untouched: bool,
                  ghost initial: Forest, ghost registry: map<string, ObjectRef>, ghost boxed: seq<Value>)
      returns (r: Result)
      requires Valid() && WeakTrie.Valid(initial) && Extends(initial, Trie())
      requires GrewFor(registry, boxed, primitiveMap, boxes, items)
      requires mode.Strict? || AllBoxed(mode, registry, items) ==> primitiveMap == registry && boxes == boxed
      requires mode.Permissive? ==> Filing(primitiveMap, boxes) == Filed(registry, boxed, FilingOrder(items))
      requires tuples == initial.tuples && signatures == initial.signatures
      requires GrownAlong(initial, Trie(), |items|, prefix)
      requires node < |nodes| && paths[node] == Path(|items|, prefix) && |prefix| == Leaf(|items|)
      requires Follows(mode, primitiveMap, items, prefix)
      requires mode.Permissive? ==> HasBox(primitiveMap, LastElement(items))
      requires final == KeyOf(mode, primitiveMap, LastElement(items))
      requires untouched ==> Trie() == initial
      requires !untouched ==> nodes[node] == map[]
      modifies this`nodes, this`tuples, this`signatures, this`holders, this`modes
      ensures Valid() && Extends(initial, Trie())
      ensures Interned(mode, items, r)
      ensures InternedFrom(mode, items, r, initial, registry, boxed, Trie(), primitiveMap, boxes)
    {
      CompletePlace(mode, primitiveMap, items, prefix, final);
      ghost var place := SignatureOf(mode, primitiveMap, items);
      ghost var located := Trie();
      r := Settle(mode, node, final, items, prefix);
      ExtendsTransitive(initial, located, Trie());
      SettledLookup(r, items, place, initial, located, Trie(), node, final, untouched);
      SettledOutcome(mode, items, r, initial, registry, boxed, Trie(), primitiveMap, boxes, final, prefix);
      if r.Failure? {
        assert Trie().paths[node] == Path(|items|, place.keys[..PrimitivePrefix(place.keys)]);
      }
    }

    /**
     * The tuple function up to its last lookup: the key of the last element
     * (computed first, as lib/tuple.js does), the root of the length class,
     * and the loop over the other elements. `final` is the final key, `node`
     * the weak map the loop reached and `prefix` the keys it followed; when
     * `failed` the loop stopped at a refused key. `untouched` says no weak
     * map was created; otherwise the one reached is new and empty. Only the
     * root of the length class and weak maps along `prefix` are created.
     */
    method Locate(mode: Mode, items: seq<Value>)
      returns (final: Value, node: nat, failed: bool, ghost prefix: seq<Value>, ghost untouched: bool)
      requires Valid()
      modifies this`roots, this`nodes, this`paths, this`parents, this`primitiveMap, this`boxes
      ensures Valid() && Extends(old(Trie()), Trie())
      ensures GrewFor(old(primitiveMap), old(boxes), primitiveMap, boxes, items)
      ensures mode.Strict? || AllBoxed(mode, old(primitiveMap), items) ==>
                primitiveMap == old(primitiveMap) && boxes == old(boxes)
      ensures mode.Permissive? ==> Filing(primitiveMap, boxes) == Filed(old(primitiveMap), old(boxes), FilingOrder(items))
      ensures tuples == old(tuples) && signatures == old(signatures)
      ensures GrownAlong(old(Trie()), Trie(), |items|, prefix)
      ensures node < |nodes| && paths[node] == Path(|items|, prefix)
      ensures Follows(mode, primitiveMap, items, prefix)
      ensures mode.Permissive? ==> HasBox(primitiveMap, LastElement(items))
      ensures final == KeyOf(mode, primitiveMap, LastElement(items))
      ensures failed ==> mode.Strict? && |prefix| < Leaf(|items|) && !KeyOf(mode, primitiveMap, items[|prefix|]).Obj?
      ensures !failed ==> |prefix| == Leaf(|items|)
      ensures untouched ==> Trie() == old(Trie())
      ensures !failed && !untouched ==> nodes[node] == map[]
    {
      var last, root;
      ghost var newRoot;
      last, final, root, newRoot := Prepare(mode, items);
      ghost var registry, boxed := primitiveMap, boxes;
      ghost var created;
      if mode.Permissive? {
        FilingBegins(primitiveMap, boxes, old(primitiveMap), old(boxes), items);
      }
      node, failed, prefix, created := Walk(mode, items, root, newRoot, old(Trie()), old(primitiveMap), old(boxes));
      if mode.Permissive? {
        FilingCompletes(primitiveMap, boxes, old(primitiveMap), old(boxes), items);
      }
      FilingOutcome(mode, old(primitiveMap), old(boxes), primitiveMap, boxes, items);
      FilingAfterFinal(old(primitiveMap), old(boxes), items);
      KeyOfStable(mode, registry, primitiveMap, last);
      untouched := !newRoot && !created;
    }

    /**
     * The first two steps of the tuple function: the key of the last element
     * (`array[-1]`, undefined, for the empty input) and `maps[length]`,
     * created when missing.
     */
    method Prepare(mode: Mode, items: seq<Value>) returns (last: Value, final: Value, root: nat, ghost newRoot: bool)
      requires Valid()
      modifies this`roots, this`nodes, this`paths, this`parents, this`primitiveMap, this`boxes
      ensures Valid() && Extends(old(Trie()), Trie())
      ensures last == LastElement(items)
      ensures mode.Strict? ==> primitiveMap == old(primitiveMap) && boxes == old(boxes)
      ensures mode.Permissive? ==> Filing(primitiveMap, boxes) == FileBox(old(primitiveMap), old(boxes), last)
      ensures mode.Permissive? ==> HasBox(primitiveMap, last)
      ensures final == KeyOf(mode, primitiveMap, last)
      ensures root < |nodes| && paths[root] == Path(|items|, [])
      ensures newRoot ==> Trie() == AddRoot(old(Trie()), |items|) && nodes[root] == map[]
      ensures !newRoot ==> Trie() == old(Trie())
      ensures GrownAlong(old(Trie()), Trie(), |items|, [])
    {
      var length := |items|;
      var almost := length - 1;
      last := if almost >= 0 then items[almost] else Undefined;
      final := Canonicalize(mode, last);
      ghost var afterFinal := Trie();
      newRoot := length !in roots;
      root := RootFor(length);
      ExtendsTransitive(old(Trie()), afterFinal, Trie());
    }

    /**
     * The end of the tuple function, at the weak map `node` reached by the
     * loop: the tuple cached under the final key, or on a miss a new tuple
     * of the input's elements stored there. A primitive final key is refused.
     */
    method Settle(mode: Mode, node: nat, final: Value, items: seq<Value>, ghost prefix: seq<Value>) returns (r: Result)
      requires Valid()
      requires node < |nodes| && paths[node] == Path(|items|, prefix) && |prefix| == Leaf(|items|)
      requires AllBoxed(mode, primitiveMap, items) && SignatureOf(mode, primitiveMap, items).keys == prefix + [final]
      modifies this`nodes, this`tuples, this`signatures, this`holders, this`modes
      ensures Valid() && Extends(old(Trie()), Trie()) && |nodes| == |old(nodes)|
      ensures var place := Path(|items|, prefix + [final]);
              && (r.Success? <==> final.Obj?)
              && (r.Success? ==>
                    && Is(r.value)
                    && r.value.ref.TupleObject?
                    && r.value.ref.id < |tuples|
                    && signatures[r.value.ref.id] == place
                    && |tuples[r.value.ref.id]| == |items|)
              && (Find(old(Trie()), place).Some? ==>
                    && final in old(nodes)[node]
                    && r == Success(Obj(TupleObject(Find(old(Trie()), place).value)))
                    && Trie() == old(Trie()))
              && (r.Success? && Find(old(Trie()), place).None? ==>
                    && Trie() == AddTuple(old(Trie()), node, final, items)
                    && r.value.ref.id == |old(tuples)|
                    && tuples == old(tuples) + [items]
                    && signatures == old(signatures) + [place])
              && (r.Failure? ==> r.error == InvalidKey && Trie() == old(Trie()))
    {
      ghost var place := Path(|items|, prefix + [final]);
      FindIsCacheHit(Trie(), place);
      TuplesArePresent(Trie(), node, final);
      if final in nodes[node] {
        assert EdgeValid(Trie(), node, final);
        var t := nodes[node][final].tuple;
        SignatureShape(Trie(), t);
        SignaturesInjective(Trie(), t, Find(Trie(), place).value);
        r := Success(Obj(TupleObject(t)));
      } else if !final.Obj? {
        r := Failure(InvalidKey);
      } else {
        ghost var before := Trie();
        var t := CacheTuple(mode, node, final, items);
        ExtendsTransitive(old(Trie()), before, Trie());
        r := Success(Obj(TupleObject(t)));
      }
    }

    /**
     * One step of the tuple function's loop at `node`: the key of `item`,
     * and the weak map found (or, on a miss, created and stored) under it.
     * A primitive key is refused before anything is stored.
     */
    method Follow(mode: Mode, item: Value, node: nat) returns (next: nat, key: Value)
      requires Valid()
      requires node < |nodes| && |paths[node].keys| < Leaf(paths[node].length)
      modifies this`nodes, this`paths, this`parents, this`primitiveMap, this`boxes
      ensures Valid() && Extends(old(Trie()), Trie())
      ensures mode.Permissive? ==> HasBox(primitiveMap, item)
      ensures key == KeyOf(mode, primitiveMap, item)
      ensures mode.Strict? ==> primitiveMap == old(primitiveMap) && boxes == old(boxes)
      ensures mode.Permissive? ==> Filing(primitiveMap, boxes) == FileBox(old(primitiveMap), old(boxes), item)
      ensures tuples == old(tuples) && signatures == old(signatures)
      ensures !key.Obj? || key in old(nodes)[node] ==> Trie() == old(Trie())
      ensures key.Obj? ==> next < |nodes| && paths[next] == Path(old(paths)[node].length, old(paths)[node].keys + [key])
      ensures key.Obj? && key !in old(nodes)[node] ==>
                && Trie() == AddChild(old(Trie()), node, key)
                && next == |old(nodes)| && nodes[next] == map[]
    {
      key := Canonicalize(mode, item);
      next := node;
      if key in nodes[node] {
        EntryKinds(Trie(), node, key);
        assert EdgeValid(Trie(), node, key);
        next := nodes[node][key].node;
      } else if key.Obj? {
        ghost var before := Trie();
        next := AddNode(node, key);
        ExtendsTransitive(old(Trie()), before, Trie());
      }
    }

    /**
     * What the loop of the tuple function keeps after `index` passes, at the
     * weak map `node` reached along `prefix`, since the forest `start` and the
     * registry (`startMap`, `startBoxes`) the tuple function began with: every
     * weak map created since then stands along `prefix`, the keys followed are
     * those of the first `index` elements, and the registry has filed the
     * final key and those elements (Tuple.for changes nothing in it).
     */
    ghost predicate Along(mode: Mode, items: seq<Value>, index: nat, node: nat, prefix: seq<Value>,
                          start: Forest, startMap: map<string, ObjectRef>, startBoxes: seq<Value>)
      reads this
    {
      && Valid() && Extends(start, Trie())
      && index == |prefix| <= Leaf(|items|)
      && node < |nodes| && paths[node] == Path(|items|, prefix)
      && GrownAlong(start, Trie(), |items|, prefix)
      && Follows(mode, primitiveMap, items, prefix)
      && (mode.Strict? ==> primitiveMap == startMap && boxes == startBoxes)
      && (mode.Permissive? ==> FiledThrough(primitiveMap, boxes, startMap, startBoxes, items, index))
    }

    /**
     * One pass of the loop of the tuple function, at the weak map `node`
     * reached along `prefix`: Follow. A key that is an object extends what
     * the loop keeps by one element; any other key is refused, which only
     * Tuple.for can meet, and changes nothing.
     */
    method Advance(mode: Mode, items: seq<Value>, index: nat, node: nat, ghost prefix: seq<Value>,
                   ghost start: Forest, ghost startMap: map<string, ObjectRef>, ghost startBoxes: seq<Value>)
      returns (next: nat, key: Value)
      requires Along(mode, items, index, node, prefix, start, startMap, startBoxes) && index < Leaf(|items|)
      modifies this`nodes, this`paths, this`parents, this`primitiveMap, this`boxes
      ensures mode.Permissive? ==> HasBox(primitiveMap, items[index])
      ensures key == KeyOf(mode, primitiveMap, items[index])
      ensures !key.Obj? ==>
                && mode.Strict? && Trie() == old(Trie())
                && Along(mode, items, index, node, prefix, start, startMap, startBoxes)
      ensures key.Obj? ==>
                && Along(mode, items, index + 1, next, prefix + [key], start, startMap, startBoxes)
                && (key in old(nodes)[node] ==> Trie() == old(Trie()))
                && (key !in old(nodes)[node] ==> nodes[next] == map[])
    {
      ghost var registry, boxed, before := primitiveMap, boxes, Trie();
      next, key := Follow(mode, items[index], node);
      ExtendsTransitive(start, before, Trie());
      FollowsStable(mode, registry, primitiveMap, items, prefix);
      if mode.Permissive? {
        FilingAdvances(registry, boxed, primitiveMap, boxes, startMap, startBoxes, items, index);
      }
      if key.Obj? {
        if key !in before.nodes[node] {
          GrownAlongChild(start, before, |items|, prefix, node, key);
        } else {
          PrefixOfLonger(prefix, prefix, key);
          GrownAlongWiden(start, Trie(), |items|, prefix, prefix + [key]);
        }
        FollowsExtend(mode, primitiveMap, items, prefix, key);
      }
    }

    /**
     * The loop of the tuple function: from the root of the length class,
     * follows the key of each element but the last, creating the weak map of
     * the next level on a miss. It stops early, `failed`, at the first key a
     * WeakMap refuses, which is a primitive and so only arises for Tuple.for.
     * `prefix` is the keys followed and `created` says whether a weak map was
     * created; `newRoot` says the root itself was just created. What the loop
     * keeps is stated since the forest `start` and the registry (`startMap`,
     * `startBoxes`) the tuple function began with: every weak map created
     * since then stands along `prefix`, and every box created since then is
     * for one of `items`.
     */
    method Walk(mode: Mode, items: seq<Value>, root: nat, ghost newRoot: bool,
                ghost start: Forest, ghost startMap: map<string, ObjectRef>, ghost startBoxes: seq<Value>)
      returns (node: nat, failed: bool, ghost prefix: seq<Value>, ghost created: bool)
      requires Along(mode, items, 0, root, [], start, startMap, startBoxes)
      requires newRoot ==> nodes[root] == map[]
      modifies this`nodes, this`paths, this`parents, this`primitiveMap, this`boxes
      ensures Along(mode, items, |prefix|, node, prefix, start, startMap, startBoxes)
      ensures failed ==> mode.Strict? && |prefix| < Leaf(|items|) && !KeyOf(mode, primitiveMap, items[|prefix|]).Obj?
      ensures !failed ==> |prefix| == Leaf(|items|)
      ensures !created ==> Trie() == old(Trie())
      ensures !failed && (newRoot || created) ==> nodes[node] == map[]
    {
      node, failed, prefix, created := root, false, [], false;
      var index := 0;
      while index < |items| - 1
        invariant Along(mode, items, index, node, prefix, start, startMap, startBoxes)
        invariant !created ==> Trie() == old(Trie())
        invariant newRoot || created ==> nodes[node] == map[]
      {
        ghost var before := Trie();
        var next, key := Advance(mode, items, index, node, prefix, start, startMap, startBoxes);
        if !key.Obj? {
          failed := true;
          return;
        }
        created := created || key !in before.nodes[node];
        node := next;
        prefix := prefix + [key];
        index := index + 1;
      }
    }
  }
}
