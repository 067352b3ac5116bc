/**
 * The `custom_date_formatter.settings` configuration object: the only state the
 * settings form writes and the replacement service reads. A key that was never
 * saved reads as NULL (None).
 */
module Config {
  import opened Wrappers

  datatype Settings = Settings(
    replacementCharacter: Option<string>,  // key 'replacement_character'
    muhurtas: Option<seq<string>>)         // key 'muhurtas', the period labels
}
