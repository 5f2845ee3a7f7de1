/** The operand kinds of RacketLite and the exceptions its operand and expression code throws. */
module RacketTypes {

  /** RacketLite's `RacketOperandType`: the tag every operand carries. */
  datatype RacketOperandType = Number | Boolean | String | Natural | Unknown | Expression

  /** The exceptions of the modelled code, as values. */
  datatype Error =
    | TypeConversion(actual: RacketOperandType, required: RacketOperandType)  // TypeConversionException
    | ArgumentNull                                                           // ArgumentNullException
    | NullReference                                                          // NullReferenceException
    | InvalidCast                                                            // InvalidCastException
    | KeyNotFound(key: string)                                               // KeyNotFoundException
    | NotImplemented                                                         // NotImplementedException
    | IndexOutOfRange                                                        // IndexOutOfRangeException
    | Raised(exception: string)  // an exception thrown by code outside this model, by type name
}
