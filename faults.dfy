/** The Ruby exceptions the modelled code can raise on the way. */
module Faults {

  datatype Fault =
    /** NoMethodError: the named method was called on nil. */
    | NilReceiver(methodName: string)
    /** The artifact could not hand over the data of the named file. */
    | FileUnavailable(name: string)
}
