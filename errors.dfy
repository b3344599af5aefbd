/** The exceptions raised along the scale-detection path, from unrolling the
    power spectrum up to the crystal-system dispatch. */
module ScaleErrors {

  datatype Error =
    | NotSquare              // the spectrum is not square
    | EmptyField             // the maximum of an empty array
    | ReshapeMismatch        // the bin means do not fill (angular, radial)
    | NoSamplePoints         // a column to interpolate has no known entry
    | TemplateTooLarge       // the matching template does not fit in the padded table
    | UnrecognizedStructure  // a crystal system other than hexagonal

  datatype Result<T> = Ok(value: T) | Err(error: Error)
}
