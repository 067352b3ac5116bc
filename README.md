# Custom date formatter: a verified model

The Drupal module `custom_date_formatter` adds a Vedic time-of-day label to dates. A
date format pattern may contain a placeholder character, `@` by default. Each
occurrence of the placeholder is replaced by the name of the current *muhurta*.
Muhurtas are thirty periods of 48 minutes each, counted from sunrise. Everything
else in the pattern goes to Drupal's ordinary date formatter. A settings form stores
the placeholder character and the thirty names.

This project models that core in Dafny and proves properties of it:

- `wrappers.dfy` (`Wrappers`): the `Option` type. It stands for a PHP value that may be NULL.
- `php.dfy` (`Php`): the PHP built-ins the core calls. These are `empty()` and `?:` emptiness, `strpos`, `strlen` and `substr` (as sequence length and slices), `array_slice` and `array_pad`, and the UTF-8 byte view of a character that `strlen` measures. It also holds two definitions of the model's own, used to state properties: `Concat` joins fragments in order, and `CountByte` counts a byte's occurrences.
- `config.dfy` (`Config`): the stored `custom_date_formatter.settings` record.
- `date_replacement_service.dfy` (`DateReplacementService`) covers four operations:
  - `getCharacterToReplace`;
  - `calculateReplacement`;
  - `explodeWithSeparators`, an imperative method with its scan loop;
  - `format`, an imperative method with its fragment loop.
- `settings_form.dfy` (`CustomDateFormatterSettingsForm`): the form's constants, `validateCharacter`, the normalisation in `submitForm`, `submitFormReset`, and the defaults the form shows.
- `settings_and_service.dfy` (`SettingsAndService`): what the service makes of what the form stores.

Modelling choices:

- A PHP string is a `seq<char>` in which each `char` stands for one byte. `strlen`, `strpos` and `substr` then count bytes, as PHP does.
- PHP treats both `""` and `"0"` as empty. The model states this explicitly as `Php.PhpEmpty`.
- The services the code calls are fields of `DateReplacementService.Collaborators`. These are:
  - the stored settings;
  - the default timezone;
  - the current language;
  - the named-pattern lookup;
  - the sunrise time;
  - the inner date formatter.
- `ExplodeWithSeparators` and `Format` keep the source's loops. Each is proved equal to a specification function, `Explode` and `FormatResult`. The lemmas then prove what the source promises about those functions.

Edge cases that come out of the code as written:

- The pattern `"0"` explodes to no fragments, so it formats to `""` (`ExplodeZeroPattern`, `FormatEmptyPattern`).
- The form accepts `"0"` as the replacement character. The service then treats it as empty and uses `@` (`AcceptedCharacterIsPlaceholder`).
- A stored empty character shows as empty in the form but is used as `@` (`FormAndServiceDefaults`).
- The form's default character `q` differs from the service's fallback `@`.

## Model

| member | source | states |
|---|---|---|
| Php.StrPos | src/Service/DateReplacementService.php:141 | `strpos($string, $delimiter, $position)`: a found position is at or after the offset and the needle occurs there |
| Php.StrPosIsFirst | src/Service/DateReplacementService.php:141 | no occurrence lies between the offset and the found position, and none at all after the offset when nothing is found |
| Php.StrPosFindsFirst | src/Service/DateReplacementService.php:141 | an occurrence with none between the offset and it is the one `strpos` returns |
| Php.StrPosSingleByte | src/Service/DateReplacementService.php:141 | for a one-byte needle, `strpos` is a byte-by-byte search |
| Php.ArraySlice | src/Form/CustomDateFormatterSettingsForm.php:131 | `array_slice($a, $offset, $length)` has `min(length, |a| - offset)` entries, namely those from `offset` on |
| Php.ArrayPad | src/Form/CustomDateFormatterSettingsForm.php:131 | `array_pad($a, $size, $value)` keeps every entry of `a` in order and fills up to `size` with `value` |
| Php.Utf8Encode | src/Form/CustomDateFormatterSettingsForm.php:120 | a character is 1 to 4 bytes, and exactly 1 byte when it is below U+0080 |
| DateReplacementService.GetCharacterToReplace | src/Service/DateReplacementService.php:72-74 | the placeholder is never PHP-empty: it is the configured value when that is not NULL, `""` or `"0"`, and `@` otherwise |
| DateReplacementService.PeriodIndex | src/Service/DateReplacementService.php:98-99 | the index `i` is the floor of elapsed seconds over 2880: `i*2880 <= ts - sunrise < (i+1)*2880`, also before sunrise |
| DateReplacementService.PeriodIndexOfInterval | src/Service/DateReplacementService.php:98-99 | a timestamp in the k-th 48-minute interval after sunrise has index k |
| DateReplacementService.CalculateReplacement | src/Service/DateReplacementService.php:85-104 | the label is `labels[i]` when `i` is in range and that entry is not PHP-empty, and `""` otherwise; NULL or empty stored lists give `""`; the result is never `"0"` |
| DateReplacementService.LabelDuringPeriod | src/Service/DateReplacementService.php:98-103 | during the k-th period the label is the k-th configured name |
| DateReplacementService.LabelBlankBeforeSunrise | src/Service/DateReplacementService.php:98-103 | before sunrise the index is negative and the label is `""` |
| DateReplacementService.LabelBlankAfterLastPeriod | src/Service/DateReplacementService.php:98-103 | past the last configured period the index is out of range and the label is `""` |
| DateReplacementService.ExplodeWithSeparators | src/Service/DateReplacementService.php:125-160 | the `strpos` loop terminates and returns exactly the fragments `Explode` specifies |
| DateReplacementService.ScanLoopStep | src/Service/DateReplacementService.php:141-152 | one turn of the loop keeps "emitted fragments, then those still to come" equal to the whole result |
| DateReplacementService.ExplodeEmptyInputs | src/Service/DateReplacementService.php:125-134 | a PHP-empty string gives `[]`; a non-empty string with a PHP-empty delimiter gives `[string]` |
| DateReplacementService.ScanRoundTrip | src/Service/DateReplacementService.php:136-159 | from any position, the fragments the loop emits concatenate to the rest of the string |
| DateReplacementService.ExplodeRoundTrip | src/Service/DateReplacementService.php:136-159 | for a non-empty string, concatenating the fragments gives back the string |
| DateReplacementService.ExplodeZeroPattern | src/Service/DateReplacementService.php:126-129 | the string `"0"` gives no fragments, so the round trip fails for it |
| DateReplacementService.ScanFragments | src/Service/DateReplacementService.php:143-157 | the loop never emits an empty fragment, and never two text fragments in a row |
| DateReplacementService.ExplodeFragments | src/Service/DateReplacementService.php:143-157 | no fragment is `""`; of any two neighbouring fragments at least one is the delimiter |
| DateReplacementService.ScanSingleByte | src/Service/DateReplacementService.php:141-152 | with a one-byte delimiter, from any position each fragment is the delimiter or free of its byte, and delimiter fragments count its occurrences in the rest |
| DateReplacementService.ExplodeSingleByte | src/Service/DateReplacementService.php:141-152 | with a one-byte delimiter other than `"0"`, for every pattern (`""` and `"0"` included) each fragment is the delimiter or free of its byte, and the delimiter fragments count its occurrences in the string |
| DateReplacementService.ExplodeNoDelimiter | src/Service/DateReplacementService.php:141-157 | a non-empty string without the delimiter is one fragment |
| DateReplacementService.ScanOfTokens | src/Service/DateReplacementService.php:141-157 | with a one-byte delimiter, scanning the concatenation of a token list from any position gives back the list |
| DateReplacementService.ExplodeOfTokens | src/Service/DateReplacementService.php:125-160 | the inverse round trip: for a one-byte delimiter other than `"0"`, exploding the concatenation of a token list gives back that list, unless the concatenation is `"0"`. A token list has no empty element, no two text elements in a row, and each element is the delimiter or free of its byte |
| DateReplacementService.ExplodeCommaExample | src/Service/DateReplacementService.php:125-160 | `"one,two,three"` split on `","` is `one`, `,`, `two`, `,`, `three` |
| DateReplacementService.ExplodeLeadingPlaceholderExample | src/Service/DateReplacementService.php:125-160 | `"@, Y-m-d"` split on `"@"` is `@` then `, Y-m-d` |
| DateReplacementService.AssembleAppend | src/Service/DateReplacementService.php:196-202 | rendering fragment lists is compositional: the output for `a + b` is the output for `a` followed by that for `b` |
| DateReplacementService.AssemblePlaceholder | src/Service/DateReplacementService.php:196-202 | every placeholder fragment, wherever it stands, contributes the same label computed once before the loop |
| DateReplacementService.AssembleVerbatim | src/Service/DateReplacementService.php:196-202 | with an identity renderer and the placeholder as label, the output is the concatenation of the fragments |
| DateReplacementService.Format | src/Service/DateReplacementService.php:166-205 | the loop's output is the in-order concatenation of the label for each placeholder fragment and the inner rendering of every other fragment, in the timezone (default when unset) and language (current when empty) chosen |
| DateReplacementService.FormatIgnoresFormatArgument | src/Service/DateReplacementService.php:186-188 | for a type other than `custom`, the `$format` argument plays no part |
| DateReplacementService.FormatEmptyPattern | src/Service/DateReplacementService.php:186-193 | an unknown named format (NULL pattern), or a custom pattern `""` or `"0"`, formats to `""` |
| DateReplacementService.FormatWithoutPlaceholder | src/Service/DateReplacementService.php:193-202 | a pattern without the placeholder goes to the inner formatter whole |
| DateReplacementService.FormatVerbatim | src/Service/DateReplacementService.php:190-202 | with an identity inner formatter and the placeholder as label, formatting reproduces the pattern, so substitution happens in place |
| DateReplacementService.FormatExample | src/Service/DateReplacementService.php:166-205 | `"@, Y-m-d"` at sunrise, with `Cryer` as first name, gives `Cryer` followed by the inner rendering of `, Y-m-d` |
| CustomDateFormatterSettingsForm.ValidateCharacter | src/Form/CustomDateFormatterSettingsForm.php:118-123 | an error is set exactly when the value is not one byte long, with the message "Please enter exactly one character." |
| CustomDateFormatterSettingsForm.ValidateCharacterCountsBytes | src/Form/CustomDateFormatterSettingsForm.php:118-123 | a character passes exactly when its UTF-8 encoding is one byte, so a multi-byte character is rejected |
| CustomDateFormatterSettingsForm.NormalizeMuhurtas | src/Form/CustomDateFormatterSettingsForm.php:131 | the stored list has exactly 30 entries; the first `min(n, 30)` submitted entries are kept in order and verbatim, blanks included; the rest is `""` |
| CustomDateFormatterSettingsForm.NormalizeMuhurtasIsStable | src/Form/CustomDateFormatterSettingsForm.php:131 | normalising twice changes nothing further, and a 30-entry list is stored unchanged |
| CustomDateFormatterSettingsForm.NormalizeMuhurtasShape | src/Form/CustomDateFormatterSettingsForm.php:131 | entries past index 29 are dropped; a shorter list is followed by just enough `""` to reach 30 |
| CustomDateFormatterSettingsForm.SubmitForm | src/Form/CustomDateFormatterSettingsForm.php:128-137 | the saved settings are the submitted character and the normalised 30-entry list |
| CustomDateFormatterSettingsForm.SubmitFormReset | src/Form/CustomDateFormatterSettingsForm.php:145-150 | the reset stores the character `q` and exactly the thirty default names |
| CustomDateFormatterSettingsForm.ResetDefaultsAreValid | src/Form/CustomDateFormatterSettingsForm.php:15-56 | the defaults form a valid submission: `q` passes validation; there are exactly `STRING_ARRAY_SIZE` = 30 names and none is PHP-empty; resetting saves what submitting the defaults would save |
| CustomDateFormatterSettingsForm.CharacterFieldDefault | src/Form/CustomDateFormatterSettingsForm.php:84 | the field shows the stored character, and `q` only when the stored value is NULL, not when it is `""` |
| CustomDateFormatterSettingsForm.MuhurtaFieldDefault | src/Form/CustomDateFormatterSettingsForm.php:98-105 | field i shows entry i of the stored list, or of the default names only when the list is NULL |
| SettingsAndService.PeriodIndexWithinDay | src/Service/DateReplacementService.php:98-99 | in the 24 hours after sunrise the period index lies in 0..29 |
| SettingsAndService.SubmittedLabelsCoverDay | src/Form/CustomDateFormatterSettingsForm.php:131 | after a submit, each moment of the 24 hours after sunrise gets a period in 0..29 and shows the submitted entry, or `""` when that entry was blank, `"0"` or missing |
| SettingsAndService.ResetLabelsCoverDay | src/Form/CustomDateFormatterSettingsForm.php:145-150 | after a reset, each moment of the 24 hours after sunrise shows the default name of its period, never `""` |
| SettingsAndService.ResetFirstPeriodIsCryer | src/Form/CustomDateFormatterSettingsForm.php:26 | after a reset, the first 48 minutes from sunrise are `Cryer` |
| SettingsAndService.AcceptedCharacterIsPlaceholder | src/Service/DateReplacementService.php:73 | an accepted character becomes the placeholder exactly when it is not `"0"`; `"0"` is replaced by `@` |
| SettingsAndService.FormAndServiceDefaults | src/Service/DateReplacementService.php:73 | an unset character shows as `q` but is used as `@`; a stored `""` shows as `""` but is used as `@`; a reset stores `q`, which is used as is |
| SettingsAndService.SubmittedCharacterSplitsPattern | src/Service/DateReplacementService.php:141-152 | with an accepted character other than `"0"`, every pattern (`"0"` included) splits at exactly the occurrences of that byte |
| SettingsAndService.FormatAfterReset | src/Service/DateReplacementService.php:186-204 | after a reset, the custom pattern `q` formats to the default name of the current period |

## Left out

- Drupal plumbing is not modelled. This covers the config factory, the entity type manager, the language manager, `DrupalDateTime`, `timezone_open` and `date_default_timezone_get`. The stored settings, the pattern lookup, the default timezone and the current language are fields of `Collaborators`.
- `getDateFormatPattern` is the lookup `Collaborators.patternFor`. Its try/catch is not modelled; a failed or throwing load is a `None`.
- `Format` does not model a failing `timezone_open`. An unknown timezone name is passed on to the inner formatter and to the sunrise function unchecked.
- `date_sun_info` and `getLocation()` are not modelled: they are astronomical floating-point calls. The sunrise is the collaborator `Collaborators.sunrise`. The polar cases, where PHP returns `true` or `false` instead of a timestamp, are not modelled.
- `PeriodIndex`: does not model floating-point rounding of `/ 60 / 48`. Integer floor division is exact, and it agrees with PHP's float division except for elapsed times beyond 2^53 seconds.
- `CalculateReplacement`: indexing the list with the float that `floor` returns is modelled as indexing with an integer. PHP truncates an integral float key to the same integer.
- `Format`: the loop compares a fragment with the placeholder using PHP's loose `==`, which the model treats as string equality. The two differ whenever both are numeric strings with the same value but different spellings. The placeholder is whatever non-empty string is stored, and settings written outside the form may hold a longer one. Multi-byte numeric placeholders therefore differ from the model, for example the placeholder `"10"` against the fragment `"1e1"`, or the placeholder `"1.0"` against the fragment `"1"`. For a one-byte placeholder from `1` to `9`, a text fragment never contains the digit itself (`ExplodeSingleByte`). The two then differ only through float rounding, as in `1.99999999999999999999` for `2`. None of these cases is modelled.
- `Format`: the source's default arguments `$type = 'medium'` and `$format = ''` are not modelled as defaults. A caller omitting them stands for `Format(timestamp, "medium", "", None, None, env)`.
- `LabelAt` and `MuhurtaFieldDefault`: an index outside the list also raises PHP's "Undefined array key" warning. The model returns the same value but drops the warning.
- The inner formatter `innerDateFormatter->format` is the uninterpreted function `Collaborators.inner`. Its constant type argument `'custom'` is implied.
- `src/Service/DateFormatterDecorator.php` only forwards calls to the service and the inner formatter. `src/DateFormatterDecorator.php` is an unused example decorator. Neither is part of this model.
- `src/Form/DateFormatterVedicSettingsForm.php` is a copy of the settings form under another configuration key, which the service never reads. It is not part of this model.
- `buildForm`'s render arrays are not modelled, and neither are translation (`$this->t`) or the `#maxlength` and `#required` element properties. Only the defaults the fields show are modelled.
- Persistence (`save()`, `parent::submitForm`) is not modelled. A submit or reset is the `Settings` value it saves.
- `SubmitForm`: the submitted label list is always a list. A NULL `getValue('muhurtas')`, which would make `array_slice` fail, is not modelled.
