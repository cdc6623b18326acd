/** The IllegalFormatException subclasses the specifier parser throws, with the
    payload each one is built from. */
module FormatErrors {

  datatype FormatError =
    | UnknownFormatConversion(conversion: string)
    | UnknownFormatFlags(flags: string)
    | DuplicateFormatFlags(flags: string)
    | IllegalFormatWidth(width: int)
    | IllegalFormatPrecision(precision: int)
    | FormatFlagsConversionMismatch(flags: string, c: char)
    | MissingFormatWidth(specifier: string)
    | IllegalFormatFlags(flags: string)
}
