/** The infraction records the detectors return, with the keys the service
    reports for each kind. */
module Infractions {

  /** A text or UI component whose contrast with its background is too low
      (WCAG 1.4.3, 1.4.11). */
  datatype ContrastInfraction = ContrastInfraction(
    criterion: string,
    xpath: string,
    contrast: real,
    threshold: real)

  /** A piece of text whose predicted language differs from the language the
      page declares for it (WCAG 3.1.1, 3.1.2). */
  datatype LanguageInfraction = LanguageInfraction(
    criterion: string,
    xpath: string,
    htmlLanguage: string,
    predictedLanguage: string)
}
