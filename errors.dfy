/**
  The exceptions the engine of src/qzip.cc throws, and the undefined
  behaviour of `max_element` on an empty dictionary, as error values.
*/
module Errors {

  datatype Error =
    | ErasePastEnd       // `qz_erase_block`: block ended or a concrete symbol differed
    | MissingKey         // `qz_remap`: `std::map::at` on a symbol that is not renamed
    | SymbolTooLarge     // the largest key does not fit the 16-bit output
    | ExpansionMismatch  // the final expansion test differs from the input
    | EmptyDictionary    // `max_element` of an empty dictionary is dereferenced

  datatype Result<T> = Success(value: T) | Failure(error: Error)

  /** A value that may be absent, as a decoder that rejects its input returns. */
  datatype Option<T> = None | Some(value: T)
}
