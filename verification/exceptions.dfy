/**
  The exceptions the index store and its .NET binary reader can throw, one
  constructor per cause.
*/
module Exceptions {

  datatype Exception =
    | EndOfStream           // EndOfStreamException: fewer bytes left than a read needs
    | BadVarint             // FormatException: a 7-bit encoded int longer than five bytes
    | NegativeStringLength  // IOException: a string whose length prefix is negative
    | NegativeCapacity      // ArgumentOutOfRangeException: `new List<T>(n)` with n < 0
    | NegativeArrayLength   // OverflowException: `new T[n]` with n < 0
    | UnknownId             // KeyNotFoundException: a record id missing from the id map
    | DuplicatePath         // ArgumentException: two records resolving to one path
    | DuplicateId           // ArgumentException: `Dictionary.Add` of an id already present
    | PathNotFound          // the "Asset path not found." exception
    | IndexOutOfRange       // ArgumentOutOfRangeException: a list position past the end
}
