/** Python's `None`-or-value, as used for the optional fields of the requirement profile and
    for the catalog's nullable `requirements` column. */
module Options {

  datatype Option<+T> = None | Some(value: T)

}
