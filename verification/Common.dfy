/** What several components share. */
module Common {

  datatype Option<+T> = None | Some(value: T)

  // SHA-256 is taken to be injective: a digest is represented by what it is the digest of.  `Other` is a digest that
  // no content at hand has.
  datatype Digest<+C> = Of(content: C) | Other(text: string)

  function Sha256<C>(content: C): Digest<C> {
    Of(content)
  }
}
