/** A parameter handed to the symbolic-regression search: its id, the model
    estimated for it, and the values observed for every attribute of the
    model's data set, split into numeric and nominal attributes by the class
    of the first observed value. */
module ParameterToOptimize {
  import opened Common

  /** The estimated model, as far as this class uses it: the attribute
      name to observed values map of its data set. */
  datatype ParameterModel = ParameterModel(attrForValues: map<string, seq<Value>>)

  type Attributes = map<string, seq<Value>>

  /** Some attribute has no observed value, so reading its first value fails. */
  predicate HasEmptyValueList(attributes: Attributes) {
    exists name :: name in attributes && attributes[name] == []
  }

  /** The attributes whose first value is a Double, with their value lists. */
  function NumericAttr(attributes: Attributes): Attributes {
    map name | name in attributes && attributes[name] != [] && attributes[name][0].DoubleV? :: attributes[name]
  }

  /** The attributes whose first value is a String, with their value lists. */
  function NominalAttr(attributes: Attributes): Attributes {
    map name | name in attributes && attributes[name] != [] && attributes[name][0].StringV? :: attributes[name]
  }

  /** The two splits never share an attribute, both take their value lists
      unchanged from the attribute map, and together they hold exactly the
      attributes whose first value is a Double or a String. */
  lemma SplitIsPartition(attributes: Attributes)
    ensures NumericAttr(attributes).Keys !! NominalAttr(attributes).Keys
    ensures forall name :: name in NumericAttr(attributes) ==>
      name in attributes && NumericAttr(attributes)[name] == attributes[name]
    ensures forall name :: name in NominalAttr(attributes) ==>
      name in attributes && NominalAttr(attributes)[name] == attributes[name]
    ensures forall name :: name in attributes && attributes[name] != [] ==>
      (name in NumericAttr(attributes) || name in NominalAttr(attributes)
       <==> attributes[name][0].DoubleV? || attributes[name][0].StringV?)
  {
  }

  /** An attribute whose first value is an Integer, Long or Boolean is in neither split. */
  lemma OtherClassesInNeither(attributes: Attributes, name: string)
    requires name in attributes && attributes[name] != []
    requires attributes[name][0].IntV? || attributes[name][0].LongV? || attributes[name][0].BoolV?
    ensures name !in NumericAttr(attributes) && name !in NominalAttr(attributes)
  {
  }

  class ParameterToOptimize {
    const id: string
    const model: ParameterModel
    const attributes: Attributes

    /** The attribute map is taken from the model once, at construction. */
    constructor (id: string, model: ParameterModel)
      ensures this.id == id && this.model == model
      ensures attributes == model.attrForValues
    {
      this.id := id;
      this.model := model;
      this.attributes := model.attrForValues;
    }

    /** `getNumericAttr`: the attributes whose first value is a Double.
        An attribute without values makes the lookup of its first value
        fail. */
    method GetNumericAttr() returns (r: Result<Attributes>)
      ensures HasEmptyValueList(attributes) <==> r.Failure?
      ensures r.Failure? ==> r.error == IndexOutOfBounds
      ensures r.Success? ==> r.value == NumericAttr(attributes)
    {
      var result: Attributes := map[];
      var remaining := attributes.Keys;
      while remaining != {}
        invariant remaining <= attributes.Keys
        invariant forall name :: name in attributes && name !in remaining ==> attributes[name] != []
        invariant result == map name | name in attributes && name !in remaining && attributes[name][0].DoubleV? ::
          attributes[name]
        decreases remaining
      {
        var name :| name in remaining;
        if attributes[name] == [] {
          return Failure(IndexOutOfBounds);
        }
        if attributes[name][0].DoubleV? {
          result := result[name := attributes[name]];
        }
        remaining := remaining - {name};
      }
      r := Success(result);
    }

    /** `getNominalAttr`: the attributes whose first value is a String. */
    method GetNominalAttr() returns (r: Result<Attributes>)
      ensures HasEmptyValueList(attributes) <==> r.Failure?
      ensures r.Failure? ==> r.error == IndexOutOfBounds
      ensures r.Success? ==> r.value == NominalAttr(attributes)
    {
      var result: Attributes := map[];
      var remaining := attributes.Keys;
      while remaining != {}
        invariant remaining <= attributes.Keys
        invariant forall name :: name in attributes && name !in remaining ==> attributes[name] != []
        invariant result == map name | name in attributes && name !in remaining && attributes[name][0].StringV? ::
          attributes[name]
        decreases remaining
      {
        var name :| name in remaining;
        if attributes[name] == [] {
          return Failure(IndexOutOfBounds);
        }
        if attributes[name][0].StringV? {
          result := result[name := attributes[name]];
        }
        remaining := remaining - {name};
      }
      r := Success(result);
    }

    function GetId(): (r: string)
      ensures r == id
    {
      id
    }

    function GetModel(): (r: ParameterModel)
      ensures r == model
    {
      model
    }
  }
}
