// Error outcomes shared by the entropy reader, the range sampler and the shuffler.
// The C program ends the process on each of them; the model returns them instead.
module Common {

  datatype Error =
    | EntropyUnavailable  // the entropy device could not be opened
    | EntropyShortRead    // a bulk read returned less than one whole word
    | InvalidRange        // the range sampler was asked for a range of width zero
    | OutOfBits           // the finite bit stream handed to the sampler ran dry

  datatype Result<+T> = Success(value: T) | Failure(error: Error)
}
