/** The parameters of one monitored service call: an immutable map from
    parameter name to value, kept sorted by name. Instances are values; the
    shared EMPTY instance is the value with no entries. */
module ServiceParams {
  import opened Common

  datatype ServiceParameters = ServiceParameters(parameters: map<string, Value>)

  /** The shared instance without parameters. */
  const Empty: ServiceParameters := ServiceParameters(map[])

  /** `build`: null or an empty map give EMPTY, any other map an instance
      holding exactly its entries. `None` stands for null. */
  function Build(parameters: Option<map<string, Value>>): (r: ServiceParameters)
    ensures parameters.None? ==> r == Empty
    ensures parameters.Some? ==> r.parameters == parameters.value
    ensures r == Empty <==> parameters.None? || parameters.value == map[]
  {
    if parameters.None? || parameters.value == map[] then Empty
    else ServiceParameters(parameters.value)
  }

  /** What the JSON reader makes of a text: a map, the JSON literal `null`
      (which Jackson reads as a null map), or a rejection (an `IOException`). */
  datatype JsonRead = Read(entries: map<string, Value>) | ReadNull | Unreadable

  /** `buildFromJson`: null or empty text gives EMPTY, and so does text the
      JSON reader rejects. The reader is the parameter `parse`. Text that
      reads as a null map reaches `unmodifiableSortedMap(null)`, whose
      `NullPointerException` the `IOException` handler does not catch. */
  function BuildFromJson(json: Option<string>, parse: string -> JsonRead): (r: Result<ServiceParameters>)
    ensures json.None? || json.value == "" ==> r == Success(Empty)
    ensures json.Some? && json.value != "" && parse(json.value).Unreadable? ==> r == Success(Empty)
    ensures json.Some? && json.value != "" && parse(json.value).ReadNull? ==> r == Failure(NullPointer)
    ensures json.Some? && json.value != "" && parse(json.value).Read? ==>
      r.Success? && r.value.parameters == parse(json.value).entries
    ensures r.Failure? <==> json.Some? && json.value != "" && parse(json.value).ReadNull?
  {
    if json.None? || json.value == "" then Success(Empty)
    else match parse(json.value)
      case Unreadable => Success(Empty)
      case ReadNull => Failure(NullPointer)
      case Read(m) => Success(ServiceParameters(m))
  }

  /** `merge`: a fresh instance with the entries of both operands; on a name
      present in both the receiver's value wins. */
  function Merge(receiver: ServiceParameters, parametersToAdd: ServiceParameters): (r: ServiceParameters)
    ensures r.parameters.Keys == receiver.parameters.Keys + parametersToAdd.parameters.Keys
    ensures forall k :: k in receiver.parameters ==> r.parameters[k] == receiver.parameters[k]
    ensures forall k :: k in parametersToAdd.parameters && k !in receiver.parameters ==>
      r.parameters[k] == parametersToAdd.parameters[k]
  {
    ServiceParameters(map k | k in receiver.parameters.Keys + parametersToAdd.parameters.Keys ::
      if k in receiver.parameters then receiver.parameters[k] else parametersToAdd.parameters[k])
  }

  lemma MergeEmptyRight(a: ServiceParameters)
    ensures Merge(a, Empty) == a
  {
    assert Merge(a, Empty).parameters == a.parameters;
  }

  lemma MergeEmptyLeft(b: ServiceParameters)
    ensures Merge(Empty, b) == b
  {
    assert Merge(Empty, b).parameters == b.parameters;
  }

  lemma MergeIdempotent(a: ServiceParameters)
    ensures Merge(a, a) == a
  {
    assert Merge(a, a).parameters == a.parameters;
  }

  /** Merging never changes the value of a name the receiver already has,
      so merging the same parameters in again changes nothing. */
  lemma MergeAbsorbs(a: ServiceParameters, b: ServiceParameters)
    ensures Merge(Merge(a, b), b) == Merge(a, b)
  {
    assert Merge(Merge(a, b), b).parameters == Merge(a, b).parameters;
  }

  /** `equals`: true exactly for another ServiceParameters with an equal
      map. `None` stands for null or an object of another class. */
  function Equals(a: ServiceParameters, other: Option<ServiceParameters>): (r: bool)
    ensures r <==> other.Some? && other.value.parameters == a.parameters
    ensures r <==> other == Some(a)
  {
    match other
    case None => false
    case Some(b) => a.parameters == b.parameters
  }

  /** `hashCode` is the hash of the parameter map; `mapHash` stands for
      Map.hashCode. */
  function HashCode(a: ServiceParameters, mapHash: map<string, Value> -> int): int {
    mapHash(a.parameters)
  }

  /** Equal instances have equal hash codes, as Object.hashCode demands. */
  lemma EqualsAgreesWithHashCode(a: ServiceParameters, b: ServiceParameters, mapHash: map<string, Value> -> int)
    ensures Equals(a, Some(b)) ==> HashCode(a, mapHash) == HashCode(b, mapHash)
  {
  }

  /** String.compareTo(a, b) < 0: lexicographic order on characters, a
      proper prefix first. */
  predicate StringLess(a: string, b: string) {
    if a == [] then b != []
    else if b == [] then false
    else if a[0] != b[0] then a[0] < b[0]
    else StringLess(a[1..], b[1..])
  }

  lemma {:induction false} StringLessIrreflexive(a: string)
    ensures !StringLess(a, a)
  {
    if a != [] {
      StringLessIrreflexive(a[1..]);
    }
  }

  lemma {:induction false} StringLessTransitive(a: string, b: string, c: string)
    requires StringLess(a, b) && StringLess(b, c)
    ensures StringLess(a, c)
  {
    if a != [] && b != [] && c != [] && a[0] == b[0] && b[0] == c[0] {
      StringLessTransitive(a[1..], b[1..], c[1..]);
    }
  }

  lemma {:induction false} StringLessTotal(a: string, b: string)
    ensures a == b || StringLess(a, b) || StringLess(b, a)
  {
    if a != [] && b != [] && a[0] == b[0] {
      StringLessTotal(a[1..], b[1..]);
      if a[1..] == b[1..] {
        assert a == [a[0]] + a[1..] && b == [b[0]] + b[1..];
      }
    }
  }

  /** The smallest name of a non-empty set of names. */
  ghost function MinName(names: set<string>): (m: string)
    requires names != {}
    ensures m in names
    ensures forall x :: x in names && x != m ==> StringLess(m, x)
    decreases names
  {
    var x :| x in names;
    if names == {x} then x
    else
      var y := MinName(names - {x});
      StringLessTotal(x, y);
      forall z | z in names && z != x && z != y && StringLess(x, y)
        ensures StringLess(x, z)
      {
        StringLessTransitive(x, y, z);
      }
      if StringLess(x, y) then x else y
  }

  /** A name below every name of an ascending list, put in front of it,
      gives an ascending list. */
  lemma AscendingCons(k: string, tail: seq<string>)
    requires forall j :: 0 <= j < |tail| ==> StringLess(k, tail[j])
    requires forall i, j :: 0 <= i < j < |tail| ==> StringLess(tail[i], tail[j])
    ensures forall i, j :: 0 <= i < j < |[k] + tail| ==> StringLess(([k] + tail)[i], ([k] + tail)[j])
  {
    var r := [k] + tail;
    forall i, j | 0 <= i < j < |r| ensures StringLess(r[i], r[j]) {
      assert r[j] == tail[j - 1];
      if i > 0 {
        assert r[i] == tail[i - 1];
      }
    }
  }

  /** The names of a set in ascending order. */
  ghost function SortedNames(names: set<string>): (r: seq<string>)
    ensures |r| == |names|
    ensures forall i :: 0 <= i < |r| ==> r[i] in names
    ensures forall n :: n in names ==> n in r
    ensures forall i, j :: 0 <= i < j < |r| ==> StringLess(r[i], r[j])
    decreases names
  {
    if names == {} then []
    else
      var k := MinName(names);
      var tail := SortedNames(names - {k});
      var r := [k] + tail;
      assert forall n :: n in names && n != k ==> n in tail;
      assert forall j :: 0 < j < |r| ==> r[j] in names - {k};
      AscendingCons(k, tail);
      r
  }

  /** `getParameters`: every entry once, in ascending name order. */
  ghost function GetParameters(a: ServiceParameters): (r: seq<(string, Value)>)
    ensures |r| == |a.parameters|
    ensures forall i :: 0 <= i < |r| ==> r[i].0 in a.parameters && a.parameters[r[i].0] == r[i].1
    ensures forall k :: k in a.parameters ==> (k, a.parameters[k]) in r
    ensures forall i, j :: 0 <= i < j < |r| ==> StringLess(r[i].0, r[j].0)
  {
    var names := SortedNames(a.parameters.Keys);
    var r := Entries(a.parameters, names);
    forall k | k in a.parameters ensures (k, a.parameters[k]) in r {
      var i :| 0 <= i < |names| && names[i] == k;
      assert r[i] == (k, a.parameters[k]);
    }
    forall i, j | 0 <= i < j < |r| ensures StringLess(r[i].0, r[j].0) {
      assert r[i].0 == names[i] && r[j].0 == names[j];
    }
    r
  }

  /** Each name with its value in the map. */
  ghost function Entries(m: map<string, Value>, names: seq<string>): (r: seq<(string, Value)>)
    requires forall i :: 0 <= i < |names| ==> names[i] in m
    ensures |r| == |names|
    ensures forall i :: 0 <= i < |r| ==> r[i] == (names[i], m[names[i]])
  {
    seq(|names|, i requires 0 <= i < |names| => (names[i], m[names[i]]))
  }
}
