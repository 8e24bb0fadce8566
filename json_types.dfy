/** The value kinds the type classifier distinguishes. */
module JsonTypes {

  /**
   * The four kinds of `JsonValueType::Enum`. There is no array or object
   * kind: the classifier never produces one, and a bracket classifies as Bool.
   */
  datatype ValueKind = Nil | Bool | Number | String
}
