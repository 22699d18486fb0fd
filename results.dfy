/** The two failures of a bundling request that the model keeps (an unknown
    language and an unreadable file), and the result type that carries them. */
module Results {

  /** `GetSearchPatternsByLanguage` throws for a key that is not registered;
      `File.ReadAllText` throws for a matched file that cannot be read. */
  datatype BundleError =
    | UnsupportedLanguage(language: string)
    | ReadFailure(path: string)

  datatype Result<T> = Ok(value: T) | Err(error: BundleError)
}
