/** The two Python exceptions the modelled code can raise, and a result type
    that carries either a value or the exception raised instead. */
module Results {

  datatype PyError =
    | ValueError      // `str.index` found no such character
    | AttributeError  // `re.match` returned None and `.group` was called on it

  datatype Result<+T> = Ok(value: T) | Err(error: PyError)
}
