/**
 * The parser's settings.  The setters are not modelled: a parse runs with one
 * fixed Config.  markupEscaped keeps its default (true) throughout, which
 * switches the Markup and Comment handlers off; safeMode, strictMode and
 * urlsLinked are never declared by the class and so read as off.
 */
module Settings {
  datatype Config = Config(
    breaksEnabled: bool,
    liturgicalElements: bool,
    liturgicalHTML: bool)

  /** The values the properties are declared with. */
  const Defaults: Config := Config(true, false, true)
}
