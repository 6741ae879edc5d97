/** One row of a data set: the parameters of a call, the class value to
    predict for it and the row's weight. The record is immutable: its
    getters return what the constructor was given. */
module ParamsWithClass {
  import opened ServiceParams

  /** The weight a row gets when none is given. */
  const DefaultWeight: real := 1.0

  datatype ParametersWithClass<T> = ParametersWithClass(parameters: ServiceParameters, classValue: T, weight: real)

  /** The three-argument constructor. */
  function Make<T>(parameters: ServiceParameters, classValue: T, weight: real): (r: ParametersWithClass<T>)
    ensures r.parameters == parameters && r.classValue == classValue && r.weight == weight
  {
    ParametersWithClass(parameters, classValue, weight)
  }

  /** The two-argument constructor: the weight defaults to 1.0. */
  function MakeWithDefaultWeight<T>(parameters: ServiceParameters, classValue: T): (r: ParametersWithClass<T>)
    ensures r.parameters == parameters && r.classValue == classValue
    ensures r.weight == 1.0
  {
    Make(parameters, classValue, DefaultWeight)
  }
}
