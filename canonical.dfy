/**
 * Element canonicalisation: the two element filters that turn a value into a
 * key a WeakMap can hold, and the state of the primitive box registry
 * (`primitiveMap`) that the permissive filter reads.
 */
module Canonical {
  import opened JsValues

  /**
   * nullableForm, the filter of Tuple.for: null and undefined become their
   * sentinels and every other value is its own key. A primitive therefore
   * stays a primitive, which a WeakMap will refuse.
   */
  function NullableForm(v: Value): (k: Value)
    ensures k.Obj? <==> !IsPrimitive(v)
    ensures k != v ==> v.Null? || v.Undefined?
  {
    match v
    case Null => Obj(NullSentinel)
    case Undefined => Obj(UndefinedSentinel)
    case _ => v
  }

  /** `a` is null or undefined and `b` is the sentinel object that stands in for it. */
  predicate SentinelAlias(a: Value, b: Value) {
    || (a.Null? && b == Obj(NullSentinel))
    || (a.Undefined? && b == Obj(UndefinedSentinel))
  }

  /**
   * Two values get the same strict key exactly when they are the same value,
   * or one is null (undefined) and the other the sentinel object that
   * Tuple.element hands out for it.
   */
  lemma NullableFormCollisions(a: Value, b: Value)
    ensures NullableForm(a) == NullableForm(b) <==> a == b || SentinelAlias(a, b) || SentinelAlias(b, a)
  {
  }

  /** The primitive box registry holds the box for `v`, when `v` needs one. */
  predicate HasBox(primitiveMap: map<string, ObjectRef>, v: Value) {
    NeedsBox(v) ==> StringForm(v) in primitiveMap
  }

  /**
   * The registry invariant: every entry is a box filed under the string form
   * of the primitive it was created for, and every box ever created is filed.
   * `boxes[i]` is the primitive box `i` wraps.
   */
  ghost predicate BoxesValid(primitiveMap: map<string, ObjectRef>, boxes: seq<Value>) {
    && (forall s :: s in primitiveMap ==>
          && primitiveMap[s].Box?
          && primitiveMap[s].id < |boxes|
          && NeedsBox(boxes[primitiveMap[s].id])
          && StringForm(boxes[primitiveMap[s].id]) == s)
    && (forall i :: 0 <= i < |boxes| ==>
          && NeedsBox(boxes[i])
          && StringForm(boxes[i]) in primitiveMap
          && primitiveMap[StringForm(boxes[i])] == Box(i))
  }

  /**
   * objectForm, the filter of Tuple.any and Tuple.element, once the registry
   * holds the box for `v` (the registry update on a miss is
   * Interning.Registry.ObjectForm). Every value gets an object key.
   */
  function ObjectFormIn(primitiveMap: map<string, ObjectRef>, v: Value): (k: Value)
    requires HasBox(primitiveMap, v)
    ensures k.Obj?
    ensures v.Obj? ==> k == v
  {
    match v
    case Null => Obj(NullSentinel)
    case Undefined => Obj(UndefinedSentinel)
    case Obj(_) => v
    case _ => if IsNaN(v) then Obj(NaNSentinel) else Obj(primitiveMap[StringForm(v)])
  }

  /**
   * Which values share a permissive key: null with the null sentinel,
   * undefined with the undefined sentinel, NaN with the NaN sentinel, a
   * primitive with every primitive of the same string form (so 1, '1' and
   * the box itself share one key), and an object only with itself.
   */
  lemma ObjectFormCollisions(primitiveMap: map<string, ObjectRef>, boxes: seq<Value>, a: Value, b: Value)
    requires BoxesValid(primitiveMap, boxes)
    requires HasBox(primitiveMap, a) && HasBox(primitiveMap, b)
    ensures a.Null? ==>
              (ObjectFormIn(primitiveMap, a) == ObjectFormIn(primitiveMap, b) <==> b.Null? || b == Obj(NullSentinel))
    ensures a.Undefined? ==>
              (ObjectFormIn(primitiveMap, a) == ObjectFormIn(primitiveMap, b) <==> b.Undefined? || b == Obj(UndefinedSentinel))
    ensures IsNaN(a) ==>
              (ObjectFormIn(primitiveMap, a) == ObjectFormIn(primitiveMap, b) <==> IsNaN(b) || b == Obj(NaNSentinel))
    ensures NeedsBox(a) ==>
              (ObjectFormIn(primitiveMap, a) == ObjectFormIn(primitiveMap, b) <==>
                 || (NeedsBox(b) && StringForm(b) == StringForm(a))
                 || b == Obj(primitiveMap[StringForm(a)]))
    ensures a.Obj? && b.Obj? ==> (ObjectFormIn(primitiveMap, a) == ObjectFormIn(primitiveMap, b) <==> a == b)
  {
    if NeedsBox(a) && NeedsBox(b) && ObjectFormIn(primitiveMap, a) == ObjectFormIn(primitiveMap, b) {
      var r := primitiveMap[StringForm(a)];
      assert r == primitiveMap[StringForm(b)];
      assert StringForm(boxes[r.id]) == StringForm(a);
    }
  }

  /** The registry only grows: filed boxes stay filed and box contents never change. */
  ghost predicate BoxesGrew(primitiveMap: map<string, ObjectRef>, boxes: seq<Value>,
                            primitiveMap': map<string, ObjectRef>, boxes': seq<Value>)
  {
    && (forall s :: s in primitiveMap ==> s in primitiveMap' && primitiveMap'[s] == primitiveMap[s])
    && boxes <= boxes'
  }

  /** The registry grew, and every box created meanwhile wraps one of `items`. */
  ghost predicate GrewFor(primitiveMap: map<string, ObjectRef>, boxes: seq<Value>,
                          primitiveMap': map<string, ObjectRef>, boxes': seq<Value>, items: seq<Value>)
  {
    && BoxesGrew(primitiveMap, boxes, primitiveMap', boxes')
    && forall v :: v in boxes'[|boxes|..] ==> v in items
  }

  /** Growth for `items` followed by growth for one of its elements is growth for `items`. */
  lemma GrewForElement(pm0: map<string, ObjectRef>, boxes0: seq<Value>,
                       pm1: map<string, ObjectRef>, boxes1: seq<Value>,
                       pm2: map<string, ObjectRef>, boxes2: seq<Value>, items: seq<Value>, v: Value)
    requires GrewFor(pm0, boxes0, pm1, boxes1, items) && GrewFor(pm1, boxes1, pm2, boxes2, [v]) && v in items
    ensures GrewFor(pm0, boxes0, pm2, boxes2, items)
  {
    assert boxes2[|boxes0|..] == boxes1[|boxes0|..] + boxes2[|boxes1|..];
  }

  /** Growth for `items` is growth for any list holding every element of `items`. */
  lemma GrewForWiden(primitiveMap: map<string, ObjectRef>, boxes: seq<Value>,
                     primitiveMap': map<string, ObjectRef>, boxes': seq<Value>, items: seq<Value>, more: seq<Value>)
    requires GrewFor(primitiveMap, boxes, primitiveMap', boxes', items)
    requires forall v :: v in items ==> v in more
    ensures GrewFor(primitiveMap, boxes, primitiveMap', boxes', more)
  {
  }

  /** The box registry as one value: `primitiveMap` and the primitive each box wraps. */
  datatype Filing = Filing(primitiveMap: map<string, ObjectRef>, boxes: seq<Value>)

  /**
   * What objectForm does to the registry for `v`: a primitive without a box
   * gets the next box, filed under its string form and wrapping `v` itself;
   * every other value leaves the registry as it is.
   */
  function FileBox(primitiveMap: map<string, ObjectRef>, boxes: seq<Value>, v: Value): (r: Filing)
    ensures HasBox(r.primitiveMap, v)
    ensures GrewFor(primitiveMap, boxes, r.primitiveMap, r.boxes, [v])
    ensures HasBox(primitiveMap, v) ==> r == Filing(primitiveMap, boxes)
    ensures !HasBox(primitiveMap, v) ==>
              && r.primitiveMap == primitiveMap[StringForm(v) := Box(|boxes|)]
              && |r.boxes| == |boxes| + 1 && r.boxes[|boxes|] == v
  {
    if HasBox(primitiveMap, v) then Filing(primitiveMap, boxes)
    else
      assert (boxes + [v])[|boxes|..] == [v];
      Filing(primitiveMap[StringForm(v) := Box(|boxes|)], boxes + [v])
  }

  /** The registry after objectForm has been applied to the elements of `order`, one after the other. */
  function Filed(primitiveMap: map<string, ObjectRef>, boxes: seq<Value>, order: seq<Value>): (r: Filing)
    decreases |order|
  {
    if |order| == 0 then Filing(primitiveMap, boxes)
    else
      var before := Filed(primitiveMap, boxes, order[..|order| - 1]);
      FileBox(before.primitiveMap, before.boxes, order[|order| - 1])
  }

  /**
   * Filing `order` only grows the registry, creates boxes only for elements
   * of `order`, leaves every element with its box, and changes nothing when
   * every element already had one.
   */
  lemma {:induction false} FiledGrows(primitiveMap: map<string, ObjectRef>, boxes: seq<Value>, order: seq<Value>)
    ensures var r := Filed(primitiveMap, boxes, order);
            && GrewFor(primitiveMap, boxes, r.primitiveMap, r.boxes, order)
            && (forall i :: 0 <= i < |order| ==> HasBox(r.primitiveMap, order[i]))
            && ((forall i :: 0 <= i < |order| ==> HasBox(primitiveMap, order[i])) ==> r == Filing(primitiveMap, boxes))
    decreases |order|
  {
    if |order| > 0 {
      var init, last := order[..|order| - 1], order[|order| - 1];
      var before := Filed(primitiveMap, boxes, init);
      var r := FileBox(before.primitiveMap, before.boxes, last);
      FiledGrows(primitiveMap, boxes, init);
      assert order == init + [last];
      GrewForWiden(primitiveMap, boxes, before.primitiveMap, before.boxes, init, order);
      GrewForElement(primitiveMap, boxes, before.primitiveMap, before.boxes, r.primitiveMap, r.boxes, order, last);
    }
  }

  /** Filing one more element is one more step of objectForm. */
  lemma FiledStep(primitiveMap: map<string, ObjectRef>, boxes: seq<Value>, order: seq<Value>, v: Value)
    ensures var before := Filed(primitiveMap, boxes, order);
            Filed(primitiveMap, boxes, order + [v]) == FileBox(before.primitiveMap, before.boxes, v)
  {
    assert (order + [v])[..|order|] == order;
  }

  /** Filing `a` and then `b` is filing `a + b`. */
  lemma {:induction false} FiledAppend(primitiveMap: map<string, ObjectRef>, boxes: seq<Value>, a: seq<Value>, b: seq<Value>)
    ensures var middle := Filed(primitiveMap, boxes, a);
            Filed(primitiveMap, boxes, a + b) == Filed(middle.primitiveMap, middle.boxes, b)
    decreases |b|
  {
    if |b| == 0 {
      assert a + b == a;
    } else {
      var init := b[..|b| - 1];
      FiledAppend(primitiveMap, boxes, a, init);
      assert (a + b)[..|a + b| - 1] == a + init;
    }
  }

  /** A string form that no element of `order` has gets no entry by filing `order`. */
  lemma {:induction false} FiledKeepsAbsent(primitiveMap: map<string, ObjectRef>, boxes: seq<Value>,
                                            order: seq<Value>, s: string)
    requires s !in primitiveMap
    requires forall j :: 0 <= j < |order| && NeedsBox(order[j]) ==> StringForm(order[j]) != s
    ensures s !in Filed(primitiveMap, boxes, order).primitiveMap
    decreases |order|
  {
    if |order| > 0 {
      var init := order[..|order| - 1];
      assert forall j :: 0 <= j < |init| ==> init[j] == order[j];
      FiledKeepsAbsent(primitiveMap, boxes, init, s);
    }
  }

  /**
   * The box filed for a string form that had none wraps the first element of
   * `order` with that string form: the later ones share it.
   */
  lemma {:induction false} FiledFirst(primitiveMap: map<string, ObjectRef>, boxes: seq<Value>, order: seq<Value>, i: nat)
    requires i < |order| && NeedsBox(order[i]) && StringForm(order[i]) !in primitiveMap
    requires forall j :: 0 <= j < i && NeedsBox(order[j]) ==> StringForm(order[j]) != StringForm(order[i])
    ensures var r := Filed(primitiveMap, boxes, order);
            && StringForm(order[i]) in r.primitiveMap
            && r.primitiveMap[StringForm(order[i])].Box?
            && |boxes| <= r.primitiveMap[StringForm(order[i])].id < |r.boxes|
            && r.boxes[r.primitiveMap[StringForm(order[i])].id] == order[i]
    decreases |order|
  {
    var init := order[..|order| - 1];
    var before := Filed(primitiveMap, boxes, init);
    assert forall j :: 0 <= j < |init| ==> init[j] == order[j];
    if i < |init| {
      FiledFirst(primitiveMap, boxes, init, i);
    } else {
      FiledKeepsAbsent(primitiveMap, boxes, init, StringForm(order[i]));
      FiledGrows(primitiveMap, boxes, init);
    }
  }

  /**
   * Between two valid registries related by growth for `items`, every new
   * `primitiveMap` entry is the string form of an element of `items`.
   */
  lemma NewEntriesFromItems(primitiveMap: map<string, ObjectRef>, boxes: seq<Value>,
                            primitiveMap': map<string, ObjectRef>, boxes': seq<Value>, items: seq<Value>)
    requires BoxesValid(primitiveMap, boxes) && BoxesValid(primitiveMap', boxes')
    requires GrewFor(primitiveMap, boxes, primitiveMap', boxes', items)
    ensures forall s :: s in primitiveMap' && s !in primitiveMap ==>
              exists v :: v in items && NeedsBox(v) && StringForm(v) == s
    ensures forall s :: s in primitiveMap' && s !in primitiveMap ==> |boxes| <= primitiveMap'[s].id
  {
    forall s | s in primitiveMap' && s !in primitiveMap
      ensures exists v :: v in items && NeedsBox(v) && StringForm(v) == s
      ensures |boxes| <= primitiveMap'[s].id
    {
      var b := primitiveMap'[s].id;
      if b < |boxes| {
        assert false;
      }
      assert boxes'[b] in boxes'[|boxes|..];
    }
  }

  /** Once a primitive has a box, a larger registry still gives it the same key. */
  lemma ObjectFormStable(primitiveMap: map<string, ObjectRef>, larger: map<string, ObjectRef>, v: Value)
    requires HasBox(primitiveMap, v)
    requires forall s :: s in primitiveMap ==> s in larger && larger[s] == primitiveMap[s]
    ensures HasBox(larger, v) && ObjectFormIn(larger, v) == ObjectFormIn(primitiveMap, v)
  {
  }

  /**
   * The names every object literal inherits from Object.prototype. Reading
   * one of them from `primitiveMap`, which is an object literal, finds the
   * inherited member even though no box was ever filed under it.
   */
  const ObjectPrototypeNames: set<string> := {
    "constructor", "hasOwnProperty", "isPrototypeOf", "propertyIsEnumerable",
    "toLocaleString", "toString", "valueOf", "__proto__",
    "__defineGetter__", "__defineSetter__", "__lookupGetter__", "__lookupSetter__"
  }

  /** The property read `primitiveMap[name]` on an object literal: own entries, then inherited members. */
  function PropertyRead(primitiveMap: map<string, ObjectRef>, name: string): (r: Option<ObjectRef>)
    ensures r.None? <==> name !in primitiveMap && name !in ObjectPrototypeNames
  {
    if name in primitiveMap then Some(primitiveMap[name])
    else if name in ObjectPrototypeNames then Some(Intrinsic(name))
    else None
  }

  /**
   * The key objectForm returns as written, where `boxCount` boxes exist: the
   * hit test is the truthiness of the property read, so an inherited member
   * of Object.prototype counts as a hit.
   */
  function ObjectFormAsWritten(primitiveMap: map<string, ObjectRef>, boxCount: nat, v: Value): (k: Value)
    ensures k.Obj?
    ensures HasBox(primitiveMap, v) ==> k == ObjectFormIn(primitiveMap, v)
  {
    match v
    case Null => Obj(NullSentinel)
    case Undefined => Obj(UndefinedSentinel)
    case Obj(_) => v
    case _ =>
      if IsNaN(v) then Obj(NaNSentinel)
      else match PropertyRead(primitiveMap, StringForm(v))
        case Some(r) => Obj(r)
        case None => Obj(Box(boxCount))
  }

  /**
   * As written, a string that names an Object.prototype member and has no box
   * yet gets that member as its key rather than a fresh box: the string
   * "constructor" and the Object function itself then share one key, so
   * Tuple.any(['constructor']) and Tuple.any([Object]) are the same tuple.
   */
  lemma InheritedNameCollides()
    ensures ObjectFormAsWritten(map[], 0, Str("constructor")) == Obj(Intrinsic("constructor"))
    ensures ObjectFormAsWritten(map[], 0, Obj(Intrinsic("constructor"))) == Obj(Intrinsic("constructor"))
  {
  }

  /**
   * With own entries only, as Interning.Registry.ObjectForm looks them up, a
   * primitive's key is a box, so it never meets an object that is not a box:
   * the string "constructor" and the Object function get different keys.
   */
  lemma OwnEntriesKeepNamesApart(primitiveMap: map<string, ObjectRef>, boxes: seq<Value>, v: Value, o: ObjectRef)
    requires BoxesValid(primitiveMap, boxes) && NeedsBox(v) && StringForm(v) in primitiveMap
    requires !o.Box?
    ensures ObjectFormIn(primitiveMap, v) != ObjectFormIn(primitiveMap, Obj(o))
  {
  }

  /**
   * The as-written lookup differs from an own-entry lookup exactly on those
   * names: on a miss it returns a non-box object precisely for a string that
   * names an Object.prototype member.
   */
  lemma AsWrittenMissReturnsNonBox(primitiveMap: map<string, ObjectRef>, boxCount: nat, v: Value)
    requires NeedsBox(v) && StringForm(v) !in primitiveMap
    ensures !ObjectFormAsWritten(primitiveMap, boxCount, v).ref.Box? <==> StringForm(v) in ObjectPrototypeNames
  {
  }
}
