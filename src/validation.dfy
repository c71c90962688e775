/**
 * The failure record that every FluentValidation validator in the three projects
 * produces: the name of the property the rule is declared for and the rule's message.
 */
module Validation {

  datatype ValidationFailure = ValidationFailure(propertyName: string, errorMessage: string)

  /** One rule of a chain: no failure when `passes`, else exactly one failure for `property`. */
  function Rule(passes: bool, property: string, message: string): (r: seq<ValidationFailure>)
    ensures passes <==> r == []
    ensures !passes ==> r == [ValidationFailure(property, message)]
  {
    if passes then [] else [ValidationFailure(property, message)]
  }

  /** The messages of a list of failures, in order. */
  function Messages(failures: seq<ValidationFailure>): (ms: seq<string>)
    ensures |ms| == |failures|
    ensures forall i :: 0 <= i < |failures| ==> ms[i] == failures[i].errorMessage
  {
    seq(|failures|, i requires 0 <= i < |failures| => failures[i].errorMessage)
  }
}
