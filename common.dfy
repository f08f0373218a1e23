/** Small value types shared by the other modules. */
module Common {

  datatype Option<+T> = None | Some(value: T)

  /** What one cover-art lookup against the anime catalog comes back with:
      a URL (possibly empty), no URL, or an error that escaped the lookup
      (anything other than a transport error, which the lookup absorbs). */
  datatype CoverResult = CoverUrl(url: string) | NoCover | CoverFailed {
    /** Python truthiness of the returned URL: `if cover_url:`. */
    predicate Found() {
      CoverUrl? && url != []
    }
  }

  /** The catalog as the scripts see it: the result of the k-th lookup
      (0 = first, 1 = fallback) for a search string. */
  type CoverSearch = (string, nat) -> CoverResult

  /** The gear emoji that starts every progress edit. */
  const Gear := "\U{2699}\U{FE0F}"

  function Min(a: int, b: int): int {
    if a <= b then a else b
  }

  function Max(a: int, b: int): int {
    if a >= b then a else b
  }
}
