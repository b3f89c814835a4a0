/**
 * TSys::Enum: an ordered table from unsigned index to label plus a current
 * index. `EnumValue` is the value (what converters copy and return);
 * class `Enum` is the object whose methods change it in place.
 */
module Enums {
  import opened Outcomes
  import opened Numeric

  /** `m` is the least element of `s`. */
  predicate IsMin(m: UInt32, s: set<UInt32>) {
    m in s && forall k :: k in s ==> m <= k
  }

  /** Some element of a non-empty set is below all the others. */
  lemma {:induction false} MinExists(s: set<UInt32>)
    requires s != {}
    ensures exists m :: IsMin(m, s)
    decreases |s|
  {
    var x :| x in s;
    if s == {x} {
      assert IsMin(x, s);
    } else {
      var rest := s - {x};
      assert |rest| < |s|;
      MinExists(rest);
      var y :| IsMin(y, rest);
      var m := if x <= y then x else y;
      forall k | k in s
        ensures m <= k
      {
        if k != x {
          assert k in rest;
        }
      }
      assert IsMin(m, s);
    }
  }

  /** The least key of a non-empty key set: where std::map iteration starts. */
  function MinIndex(s: set<UInt32>): (m: UInt32)
    requires s != {}
    ensures IsMin(m, s)
  {
    MinExists(s);
    var m :| IsMin(m, s); m
  }

  ghost predicate StrictlyIncreasing(ks: seq<UInt32>) {
    forall i, j :: 0 <= i < j < |ks| ==> ks[i] < ks[j]
  }

  /** The keys of a table in the order std::map visits them: ascending. */
  function SortedKeys(s: set<UInt32>): (ks: seq<UInt32>)
    ensures |ks| == |s|
    ensures forall k :: k in ks <==> k in s
    ensures StrictlyIncreasing(ks)
    decreases |s|
  {
    if s == {} then []
    else
      var m := MinIndex(s);
      [m] + SortedKeys(s - {m})
  }

  /**
   * The least key of `keys` whose label in `m` is `text`, found by visiting
   * the keys in ascending order as a std::map iteration does.
   */
  function FirstWithLabel(keys: set<UInt32>, m: map<UInt32, string>, text: string): Option<UInt32>
    decreases |keys|
  {
    if keys == {} then None
    else
      var k := MinIndex(keys);
      if k in m && m[k] == text then Some(k) else FirstWithLabel(keys - {k}, m, text)
  }

  /** The scan finds a key iff some key is labelled `text`, and then finds the least one. */
  lemma {:induction false} FirstWithLabelIsLeast(keys: set<UInt32>, m: map<UInt32, string>, text: string)
    ensures FirstWithLabel(keys, m, text).None? <==> forall k :: k in keys && k in m ==> m[k] != text
    ensures FirstWithLabel(keys, m, text).Some? ==>
              var k := FirstWithLabel(keys, m, text).value;
              k in keys && k in m && m[k] == text && forall j :: j in keys && j in m && m[j] == text ==> k <= j
    decreases |keys|
  {
    if keys != {} {
      var k := MinIndex(keys);
      FirstWithLabelIsLeast(keys - {k}, m, text);
    }
  }

  /** An Enum value: the index -> label table and the current index. */
  datatype EnumValue = EnumValue(values: map<UInt32, string>, currentIndex: UInt32) {

    /** Enum::CurrentValue: the current text, or "" when the selection dangles. */
    function CurrentValue(): string {
      if currentIndex in values then values[currentIndex] else ""
    }

    /**
     * Enum::SetCurrentIndex: selects `index` when it is a key and reports
     * whether it did; the table never changes.
     */
    function SelectIndex(index: UInt32): (r: (bool, EnumValue))
      ensures r.1.values == values
      ensures r.0 <==> index in values
      ensures r.1.currentIndex == if r.0 then index else currentIndex
    {
      if index in values then (true, this.(currentIndex := index)) else (false, this)
    }

    /**
     * Enum::SetCurrentValue: scans the keys in ascending order and selects
     * the first one labelled `text`; reports whether one was found.
     */
    function SelectLabel(text: string): (r: (bool, EnumValue))
      ensures r.1.values == values
    {
      match FirstWithLabel(values.Keys, values, text)
      case Some(k) => (true, this.(currentIndex := k))
      case None => (false, this)
    }

    /** Enum::AddValue: inserts or overwrites the label at (unsigned) `index`. */
    function AddValue(index: Int32, text: string): (e: EnumValue)
      ensures e.values.Keys == values.Keys + {ToUInt32(index)}
      ensures e.values[ToUInt32(index)] == text
      ensures forall k :: k in values && k != ToUInt32(index) ==> e.values[k] == values[k]
      ensures e.currentIndex == currentIndex
    {
      this.(values := values[ToUInt32(index) := text])
    }

    /** Enum::Indices: the keys in ascending order, each converted to `int`. */
    function Indices(): (r: seq<Int32>)
      ensures |r| == |values|
      ensures forall i :: 0 <= i < |r| ==> ToUInt32(r[i]) in values
    {
      var ks := SortedKeys(values.Keys);
      seq(|ks|, i requires 0 <= i < |ks| => ToInt32(ks[i]))
    }

    /** Indices lists the keys in ascending order. */
    lemma IndicesAscending()
      ensures forall i, j :: 0 <= i < j < |Indices()| ==> ToUInt32(Indices()[i]) < ToUInt32(Indices()[j])
    {
      assert UnsignedIndices() == SortedKeys(values.Keys);
    }

    /** Indices lists every key of the table. */
    lemma IndicesCover()
      ensures forall k :: k in values ==> exists i :: 0 <= i < |Indices()| && ToUInt32(Indices()[i]) == k
    {
      var ks := SortedKeys(values.Keys);
      forall k | k in values
        ensures exists i :: 0 <= i < |Indices()| && ToUInt32(Indices()[i]) == k
      {
        assert k in ks;
        var i :| 0 <= i < |ks| && ks[i] == k;
        assert Indices()[i] == ToInt32(ks[i]);
      }
    }

    /** The indices converted back to unsigned. */
    function UnsignedIndices(): (us: seq<UInt32>)
      ensures |us| == |Indices()|
      ensures forall i :: 0 <= i < |us| ==> us[i] == ToUInt32(Indices()[i])
    {
      var r := Indices();
      seq(|r|, i requires 0 <= i < |r| => ToUInt32(r[i]))
    }

    /** Enum::ValueAtIndex: `values.at(index)`, which throws for a missing key. */
    function ValueAtIndex(index: Int32): Outcome<string> {
      if ToUInt32(index) in values then Ok(values[ToUInt32(index)]) else Fail(OutOfRange)
    }

    /** Enum::operator==: equal current labels; indices and tables are ignored. */
    predicate Equals(other: EnumValue) {
      CurrentValue() == other.CurrentValue()
    }
  }

  /** The labels of an Enum's table in std::map order. */
  function Labels(e: EnumValue): (r: seq<string>)
    ensures |r| == |e.values|
  {
    var ks := SortedKeys(e.values.Keys);
    seq(|ks|, i requires 0 <= i < |ks| => e.values[ks[i]])
  }

  /** The j-th index Enum::Indices lists leads ValueAtIndex to the j-th label. */
  lemma IndexLabel(e: EnumValue, j: nat)
    requires j < |e.values|
    ensures e.ValueAtIndex(e.Indices()[j]) == Ok(Labels(e)[j])
  {
    var ks := SortedKeys(e.values.Keys);
    assert e.Indices()[j] == ToInt32(ks[j]);
  }

  /** SetCurrentValue succeeds iff some label equals `text`, and then selects the least such index. */
  lemma SelectLabelSpec(e: EnumValue, text: string)
    ensures e.SelectLabel(text).1.values == e.values
    ensures e.SelectLabel(text).0 <==> exists k :: k in e.values && e.values[k] == text
    ensures !e.SelectLabel(text).0 ==> e.SelectLabel(text).1 == e
    ensures e.SelectLabel(text).0 ==>
              var i := e.SelectLabel(text).1.currentIndex;
              i in e.values && e.values[i] == text &&
              forall k :: k in e.values && e.values[k] == text ==> i <= k
  {
    FirstWithLabelIsLeast(e.values.Keys, e.values, text);
  }

  /** The table the vector constructors build: label i at index i. */
  function LabelsTable(v: seq<string>): (m: map<UInt32, string>)
    requires |v| <= TWO_32
    ensures forall k: UInt32 :: k in m <==> k < |v|
  {
    map u: UInt32 | 0 <= u < |v| :: v[u]
  }

  /** TSys::Enum, updated in place. */
  class Enum {
    var values: map<UInt32, string>
    var currentIndex: UInt32

    /** The value this object currently holds. */
    function Value(): EnumValue
      reads this
    {
      EnumValue(values, currentIndex)
    }

    /** Enum(): no labels, current index 0. */
    constructor ()
      ensures Value() == EnumValue(map[], 0)
    {
      values := map[];
      currentIndex := 0;
    }

    /** Enum(std::map v, unsigned int i), and Enum(const Enum&) with the other's table and index. */
    constructor FromTable(v: map<UInt32, string>, i: UInt32)
      ensures Value() == EnumValue(v, i)
    {
      values := v;
      currentIndex := i;
    }

    /** Enum(std::vector<std::string> v, unsigned int i): label v[u] at index u. */
    constructor FromLabels(v: seq<string>, i: UInt32)
      requires |v| < TWO_32  // otherwise the unsigned loop counter wraps and the loop never ends
      ensures Value() == EnumValue(LabelsTable(v), i)
    {
      values := map[];
      currentIndex := 0;
      new;
      var u: int := 0;
      while u < |v|
        invariant 0 <= u <= |v|
        invariant values == map k: UInt32 | 0 <= k < u :: v[k]
      {
        values := values[u := v[u]];
        u := u + 1;
      }
      currentIndex := i;
    }

    method SetCurrentIndex(index: UInt32) returns (ok: bool)
      modifies this
      ensures (ok, Value()) == old(Value()).SelectIndex(index)
    {
      if index !in values {
        return false;
      }
      currentIndex := index;
      return true;
    }

    /** Scans the table in ascending key order and selects the first key labelled `text`. */
    method SetCurrentValue(text: string) returns (found: bool)
      modifies this
      ensures (found, Value()) == old(Value()).SelectLabel(text)
    {
      var rest := values.Keys;
      while rest != {}
        invariant rest <= values.Keys
        invariant values == old(values) && currentIndex == old(currentIndex)
        invariant FirstWithLabel(rest, values, text) == FirstWithLabel(values.Keys, values, text)
        decreases |rest|
      {
        var k := MinIndex(rest);
        if values[k] == text {
          found := SetCurrentIndex(k);
          return;
        }
        rest := rest - {k};
      }
      found := false;
    }

    method AddValue(index: Int32, text: string)
      modifies this
      ensures Value() == old(Value()).AddValue(index, text)
    {
      values := values[ToUInt32(index) := text];
    }

    /** Collects the keys, visited in ascending order, each converted to `int`. */
    method Indices() returns (r: seq<Int32>)
      ensures r == Value().Indices()
    {
      var ks := SortedKeys(values.Keys);
      r := [];
      for j := 0 to |ks|
        invariant |r| == j
        invariant forall i :: 0 <= i < j ==> r[i] == ToInt32(ks[i])
      {
        r := r + [ToInt32(ks[j])];
      }
    }

    method ValueAtIndex(index: Int32) returns (r: Outcome<string>)
      ensures r == Value().ValueAtIndex(index)
    {
      if ToUInt32(index) !in values {
        return Fail(OutOfRange);
      }
      return Ok(values[ToUInt32(index)]);
    }
  }
}
