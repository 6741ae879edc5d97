/** The builder that collects the rows of a data set for one estimation:
    every `addInstance` variant appends one row to the builder's list, and
    `build` hands the rows over together with the builder's mode. */
module DataSetBuilder {
  import opened Common
  import opened ServiceParams
  import opened ParamsWithClass

  /** How the attributes of the data set are to be treated. */
  datatype WekaDataSetMode = NumericOnly | IntegerOnly | NoTransformations

  /** The monitored service calls, as far as the builder uses them: the
      parameters of the call with a given service execution id. */
  datatype ServiceCallDataSet = ServiceCallDataSet(parametersOfServiceCall: string -> ServiceParameters)

  /** The data set handed to the estimators: the rows in insertion order and the mode. */
  datatype WekaDataSet<T> = WekaDataSet(rows: seq<ParametersWithClass<T>>, mode: WekaDataSetMode)

  const NoServiceCallsMessage: string := "No service call data set was specified."

  class WekaDataSetBuilder<T> {
    /** `None` stands for a builder created without service calls (null). */
    const serviceCalls: Option<ServiceCallDataSet>
    const mode: WekaDataSetMode
    var values: seq<ParametersWithClass<T>>

    constructor (serviceCalls: Option<ServiceCallDataSet>, mode: WekaDataSetMode)
      ensures this.serviceCalls == serviceCalls && this.mode == mode
      ensures values == []
    {
      this.serviceCalls := serviceCalls;
      this.mode := mode;
      values := [];
    }

    /** The constructor without service calls. */
    constructor WithMode(mode: WekaDataSetMode)
      ensures serviceCalls.None? && this.mode == mode
      ensures values == []
    {
      serviceCalls := None;
      this.mode := mode;
      values := [];
    }

    /** `addInstance(parameters, classValue, weight)`: appends exactly one row. */
    method AddInstanceWithWeight(recordParameters: ServiceParameters, classValue: T, weight: real)
      modifies this
      ensures values == old(values) + [Make(recordParameters, classValue, weight)]
    {
      var newValue := Make(recordParameters, classValue, weight);
      values := values + [newValue];
    }

    /** `addInstance(parameters, classValue)`: appends one row of weight 1.0. */
    method AddInstance(recordParameters: ServiceParameters, classValue: T)
      modifies this
      ensures values == old(values) + [Make(recordParameters, classValue, 1.0)]
      ensures values[|values| - 1].weight == 1.0
    {
      AddInstanceWithWeight(recordParameters, classValue, 1.0);
    }

    /** `addInstance(serviceExecutionId, classValue, weight)`: throws when
        the builder has no service calls; otherwise appends a row with the
        caller's parameters for that execution and weight 1.0, whatever
        `weight` says. */
    method AddInstanceForExecutionWithWeight(serviceExecutionId: string, classValue: T, weight: real) returns (r: Outcome)
      modifies this
      ensures serviceCalls.None? ==> r == Fail(IllegalArgument(NoServiceCallsMessage)) && values == old(values)
      ensures serviceCalls.Some? ==>
        r == Pass &&
        values == old(values) + [Make(serviceCalls.value.parametersOfServiceCall(serviceExecutionId), classValue, 1.0)]
    {
      if serviceCalls.None? {
        return Fail(IllegalArgument(NoServiceCallsMessage));
      }
      var callerParameters := serviceCalls.value.parametersOfServiceCall(serviceExecutionId);
      AddInstanceWithWeight(callerParameters, classValue, 1.0);
      r := Pass;
    }

    /** `addInstance(serviceExecutionId, classValue)`: the same with weight 1.0. */
    method AddInstanceForExecution(serviceExecutionId: string, classValue: T) returns (r: Outcome)
      modifies this
      ensures serviceCalls.None? ==> r == Fail(IllegalArgument(NoServiceCallsMessage)) && values == old(values)
      ensures serviceCalls.Some? ==>
        r == Pass &&
        values == old(values) + [Make(serviceCalls.value.parametersOfServiceCall(serviceExecutionId), classValue, 1.0)]
    {
      r := AddInstanceForExecutionWithWeight(serviceExecutionId, classValue, 1.0);
    }

    /** `addInstanceWithReturnValues`: appends a row whose parameters are the
        caller's parameters merged with `returnValues` (the caller's value
        wins on a name both have), weight 1.0. Without service calls the
        lookup dereferences null. */
    method AddInstanceWithReturnValues(serviceExecutionId: string, returnValues: ServiceParameters, classValue: T)
      returns (r: Outcome)
      modifies this
      ensures serviceCalls.None? ==> r == Fail(NullPointer) && values == old(values)
      ensures serviceCalls.Some? ==>
        r == Pass &&
        values == old(values) +
                  [Make(Merge(serviceCalls.value.parametersOfServiceCall(serviceExecutionId), returnValues), classValue, 1.0)]
    {
      if serviceCalls.None? {
        return Fail(NullPointer);
      }
      var callerParameters := serviceCalls.value.parametersOfServiceCall(serviceExecutionId);
      AddInstance(Merge(callerParameters, returnValues), classValue);
      r := Pass;
    }

    /** `build`: the rows collected so far, in insertion order, with the mode. */
    method Build() returns (dataSet: WekaDataSet<T>)
      ensures dataSet.rows == values && dataSet.mode == mode
    {
      dataSet := WekaDataSet(values, mode);
    }

    function GetMode(): (m: WekaDataSetMode)
      ensures m == mode
    {
      mode
    }
  }
}
