/** Option and Result values, and the kinds of failure the modelled code raises. */
module Wrappers {

  datatype Option<+T> = None | Some(value: T)

  /** The exceptions the modelled code throws, by meaning. */
  datatype Error =
    | InvalidLocale      // a locale without name, language or region
    | LocaleMismatch     // a known locale id presented with another display name
    | NotFound           // a key/locale pair that was never stored
    | DuplicateName      // two output values under one name
    | MixedLineEndings   // a text file with both CR LF and bare LF
    | NoLineEndings      // a text file with no line break at all
    | MissingTranslation // a translator answer shorter than its batch
    | TranslatorFailed   // the translation service call failed

  datatype Result<+T> = Ok(value: T) | Err(error: Error)
}
