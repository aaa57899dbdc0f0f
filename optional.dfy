/** A value that may be missing: a spreadsheet cell that pandas reads as NaN,
    a genotype that does not parse, a profile that was never loaded. */
module Optional {

  datatype Option<+T> = None | Some(value: T)

}
