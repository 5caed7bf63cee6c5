/**
 * build_attribute of the VTK readers: a flat array of values with
 * `nb` components per element becomes a variable attribute whose element
 * offset + i holds values[nb * i .. nb * i + nb]. The attribute manager is
 * an upstream class; here it is a map from attribute name to attribute.
 */
module VtkAttributes {
  import opened Wrappers

  // Messages of the exceptions the reader throws
  const COMPONENTS_ERROR: string := "[VTKInput::build_attribute] Number of attribute values is not a multiple of number of components"

  /** A variable attribute: the default value and the values set per element, each a list of components. */
  datatype Attribute<T> = Attribute(default: seq<T>, values: map<nat, seq<T>>)

  /** What the attribute holds for element e. */
  function ValueAt<T>(a: Attribute<T>, e: nat): seq<T>
  {
    if e in a.values then a.values[e] else a.default
  }

  /** Element i's components lie within the values. */
  predicate SlotFits(count: nat, nb: nat, i: nat) { nb * i + nb <= count }

  /** The components of element i: values[nb * i .. nb * i + nb]. */
  function Slot<T>(values: seq<T>, nb: nat, i: nat): seq<T>
    requires SlotFits(|values|, nb, i)
  {
    values[nb * i..nb * i + nb]
  }

  lemma SlotsFit(count: nat, nb: nat, i: nat)
    requires nb > 0 && i < count / nb
    ensures SlotFits(count, nb, i)
  {
    assert (i + 1) * nb <= (count / nb) * nb;
  }

  /** A value whose first components are replaced by `comps`. */
  function SetComponents<T>(value: seq<T>, comps: seq<T>): seq<T>
    requires |comps| <= |value|
  {
    comps + value[|comps|..]
  }

  /** Element offset + i of `after` is element offset + i of `before` with its first nb components set from the values. */
  ghost predicate Written<T>(before: Attribute<T>, after: Attribute<T>, values: seq<T>, nb: nat, offset: nat, i: nat) {
    SlotFits(|values|, nb, i) && nb <= |ValueAt(before, i + offset)| && i + offset in after.values &&
    after.values[i + offset] == SetComponents(ValueAt(before, i + offset), Slot(values, nb, i))
  }

  /** Element offset + i of `after` holds exactly values[nb * i .. nb * i + nb]. */
  ghost predicate Stored<T>(after: Attribute<T>, values: seq<T>, nb: nat, offset: nat, i: nat) {
    SlotFits(|values|, nb, i) && i + offset in after.values && after.values[i + offset] == Slot(values, nb, i)
  }

  /** Every element in lo .. hi - 1 of `a` has at least nb components. */
  predicate Wide<T>(a: Attribute<T>, nb: nat, lo: nat, hi: nat) {
    forall e: nat | lo <= e < hi :: nb <= |ValueAt(a, e)|
  }

  /** The elements of `after` are those of `before` and lo .. hi - 1. */
  ghost predicate KeysAdded<T>(before: Attribute<T>, after: Attribute<T>, lo: nat, hi: nat) {
    forall e: nat :: e in after.values <==> e in before.values || lo <= e < hi
  }

  /**
   * The loop of create_attribute: for every element i, component c of
   * element offset + i is set to values[nb * i + c]; other elements keep
   * their values. An element value with fewer than nb components cannot
   * take them and is rejected.
   */
  method WriteElements<T>(a: Attribute<T>, values: seq<T>, nb: nat, offset: nat) returns (r: Result<Attribute<T>>)
    requires nb > 0
    ensures r.Ok? <==> Wide(a, nb, offset, offset + |values| / nb)
    ensures r.Ok? ==> r.value.default == a.default
    ensures r.Ok? ==> forall i | 0 <= i < |values| / nb :: Written(a, r.value, values, nb, offset, i)
    ensures r.Ok? ==> forall e | e in a.values && !(offset <= e < offset + |values| / nb) ::
      e in r.value.values && r.value.values[e] == a.values[e]
    ensures r.Ok? ==> KeysAdded(a, r.value, offset, offset + |values| / nb)
  {
    var n := |values| / nb;
    var current := a;
    for i := 0 to n
      invariant current.default == a.default
      invariant Wide(a, nb, offset, offset + i)
      invariant forall q | 0 <= q < i :: Written(a, current, values, nb, offset, q)
      invariant forall e | e in a.values && !(offset <= e < offset + i) :: e in current.values && current.values[e] == a.values[e]
      invariant KeysAdded(a, current, offset, offset + i)
    {
      SlotsFit(|values|, nb, i);
      var value := ValueAt(a, i + offset);
      assert ValueAt(current, i + offset) == value;
      if |value| < nb {
        return Err("vector subscript out of range");
      }
      value := SetSlot(value, values, nb, i);
      var next := current.(values := current.values[i + offset := value]);
      WrittenKept(a, current, next, values, nb, offset, i, value);
      current := next;
    }
    return Ok(current);
  }

  /** The inner loop of create_attribute: component c of the value becomes values[nb * i + c]. */
  method SetSlot<T>(start: seq<T>, values: seq<T>, nb: nat, i: nat) returns (value: seq<T>)
    requires SlotFits(|values|, nb, i) && nb <= |start|
    ensures value == SetComponents(start, Slot(values, nb, i))
  {
    value := start;
    for c := 0 to nb
      invariant |value| == |start|
      invariant value == values[nb * i..nb * i + c] + start[c..]
    {
      value := value[c := values[nb * i + c]];
    }
  }

  /** Setting element offset + i keeps what was written for the elements before it. */
  lemma WrittenKept<T>(a: Attribute<T>, current: Attribute<T>, next: Attribute<T>, values: seq<T>, nb: nat, offset: nat, i: nat, value: seq<T>)
    requires forall q | 0 <= q < i :: Written(a, current, values, nb, offset, q)
    requires next == current.(values := current.values[i + offset := value])
    requires SlotFits(|values|, nb, i) && nb <= |ValueAt(a, i + offset)|
    requires value == SetComponents(ValueAt(a, i + offset), Slot(values, nb, i))
    ensures forall q | 0 <= q < i + 1 :: Written(a, next, values, nb, offset, q)
  {
    forall q | 0 <= q < i + 1
      ensures Written(a, next, values, nb, offset, q)
    {
      if q < i {
        assert Written(a, current, values, nb, offset, q);
      }
    }
  }

  class AttributeManager<T> {
    var attributes: map<string, Attribute<T>>

    constructor ()
      ensures attributes == map[]
    {
      attributes := map[];
    }

    /**
     * build_attribute (current reader): the number of values must be a
     * multiple of nb; an attribute that already exists is left untouched;
     * otherwise a new one with nb zero components per element gets
     * element offset + i = values[nb * i .. nb * i + nb].
     */
    method BuildAttribute(name: string, values: seq<T>, nb: nat, offset: nat, zero: T) returns (r: Outcome)
      modifies this
      ensures r.Pass? <==> nb > 0 && |values| % nb == 0
      ensures r.Fail? || name in old(attributes) ==> attributes == old(attributes)
      ensures r.Pass? && name !in old(attributes) ==>
        attributes.Keys == old(attributes).Keys + {name} &&
        (forall other | other in old(attributes) :: attributes[other] == old(attributes)[other]) &&
        attributes[name].default == seq(nb, _ => zero) &&
        KeysAdded(Attribute(seq(nb, _ => zero), map[]), attributes[name], offset, offset + |values| / nb) &&
        forall i | 0 <= i < |values| / nb :: Stored(attributes[name], values, nb, offset, i)
    {
      if nb == 0 || |values| % nb != 0 {
        return Fail(COMPONENTS_ERROR);
      }
      if name in attributes {
        return Pass;
      }
      var created := Attribute(seq(nb, _ => zero), map[]);
      assert Wide(created, nb, offset, offset + |values| / nb) by {
        forall e: nat | offset <= e < offset + |values| / nb
          ensures nb <= |ValueAt(created, e)|
        {
          assert ValueAt(created, e) == created.default;
        }
      }
      var written := WriteElements(created, values, nb, offset);
      attributes := attributes[name := written.value];
      forall i | 0 <= i < |values| / nb
        ensures Stored(attributes[name], values, nb, offset, i)
      {
        assert Written(created, written.value, values, nb, offset, i);
        assert ValueAt(created, i + offset) == created.default;
      }
      return Pass;
    }

    /**
     * build_attribute (older reader): with one component every value i is
     * set at element offset + i with no further check; with more, the
     * count must be a multiple of nb. An existing attribute is reused, so
     * its other elements and its default are kept and the written
     * elements' components are overwritten.
     */
    method BuildAttributeLegacy(name: string, values: seq<T>, nb: nat, offset: nat, zero: T) returns (r: Outcome)
      modifies this
      ensures nb == 1 && name !in old(attributes) ==> r.Pass?
      ensures r.Pass? ==> nb > 0 && |values| % nb == 0
      ensures r.Fail? ==> attributes == old(attributes)
      ensures r.Pass? ==>
        var before := if name in old(attributes) then old(attributes)[name] else Attribute(seq(nb, _ => zero), map[]);
        name in attributes && attributes == old(attributes)[name := attributes[name]] &&
        attributes[name].default == before.default &&
        (forall e | e in before.values && !(offset <= e < offset + |values| / nb) ::
          e in attributes[name].values && attributes[name].values[e] == before.values[e]) &&
        forall i | 0 <= i < |values| / nb :: Written(before, attributes[name], values, nb, offset, i)
    {
      if nb == 0 || |values| % nb != 0 {
        return Fail(COMPONENTS_ERROR);
      }
      var before := if name in attributes then attributes[name] else Attribute(seq(nb, _ => zero), map[]);
      if name !in attributes {
        forall e: nat | offset <= e < offset + |values| / nb
          ensures nb <= |ValueAt(before, e)|
        {
          assert ValueAt(before, e) == before.default;
        }
      }
      var written := WriteElements(before, values, nb, offset);
      if written.Err? {
        return Fail(written.message);
      }
      attributes := attributes[name := written.value];
      return Pass;
    }
  }

  /** A freshly built attribute gives back, element by element, the values it was built from. */
  lemma FlatValuesReadBack<T>(a: Attribute<T>, values: seq<T>, nb: nat, offset: nat, k: nat)
    requires nb > 0 && k < |values| && |values| % nb == 0
    requires forall i | 0 <= i < |values| / nb :: Stored(a, values, nb, offset, i)
    ensures k / nb < |values| / nb
    ensures |ValueAt(a, k / nb + offset)| == nb && ValueAt(a, k / nb + offset)[k % nb] == values[k]
  {
    var i, c := k / nb, k % nb;
    assert k == nb * i + c;
    SlotsFit(|values|, nb, i);
    assert i < |values| / nb by {
      assert nb * i <= k < |values|;
      assert |values| == nb * (|values| / nb);
    }
    assert Stored(a, values, nb, offset, i);
    assert ValueAt(a, i + offset) == Slot(values, nb, i);
    assert Slot(values, nb, i)[c] == values[nb * i + c];
  }
}
