/**
 * What the settings form stores, as the date replacement service reads it:
 * the label shown in each period of the day after a submit or a reset, and
 * which replacement character the service ends up using.
 */
module SettingsAndService {
  import opened Wrappers
  import opened Php
  import opened Config
  import opened DateReplacementService
  import opened CustomDateFormatterSettingsForm

  /** Seconds in a day: thirty periods of forty-eight minutes. */
  const SecondsPerDay: int := 24 * 60 * 60

  lemma PeriodIndexWithinDay(timestamp: int, sunrise: int)
    requires 0 <= timestamp - sunrise < SecondsPerDay
    ensures 0 <= PeriodIndex(timestamp, sunrise) < StringArraySize
  {
    var i := PeriodIndex(timestamp, sunrise);
    assert i * SecondsPerPeriod <= timestamp - sunrise < (i + 1) * SecondsPerPeriod;
  }

  /**
   * After a submit, every moment of the day after sunrise falls in one of the
   * thirty stored periods: its label is the submitted entry, or blank when that
   * entry was left empty, "0" or not submitted at all.
   */
  lemma SubmittedLabelsCoverDay(replacementCharacter: string, muhurtas: seq<string>, timestamp: int, sunrise: int)
    requires 0 <= timestamp - sunrise < SecondsPerDay
    ensures var i := PeriodIndex(timestamp, sunrise);
            0 <= i < StringArraySize
            && CalculateReplacement(timestamp, sunrise, SubmitForm(replacementCharacter, muhurtas))
               == if i < |muhurtas| && !PhpEmpty(muhurtas[i]) then muhurtas[i] else ""
  {
    PeriodIndexWithinDay(timestamp, sunrise);
  }

  /** After a reset, every moment of the day after sunrise shows the default name of its period, never a blank. */
  lemma ResetLabelsCoverDay(timestamp: int, sunrise: int)
    requires 0 <= timestamp - sunrise < SecondsPerDay
    ensures var i := PeriodIndex(timestamp, sunrise);
            0 <= i < |Muhurtas|
            && CalculateReplacement(timestamp, sunrise, SubmitFormReset()) == Muhurtas[i]
            && CalculateReplacement(timestamp, sunrise, SubmitFormReset()) != ""
  {
    PeriodIndexWithinDay(timestamp, sunrise);
    ResetDefaultsAreValid();
  }

  /** After a reset, the first forty-eight minutes from sunrise are the "Cryer" period. */
  lemma ResetFirstPeriodIsCryer(timestamp: int, sunrise: int)
    requires 0 <= timestamp - sunrise < SecondsPerPeriod
    ensures CalculateReplacement(timestamp, sunrise, SubmitFormReset()) == "Cryer"
  {
    LabelDuringPeriod(timestamp, sunrise, SubmitFormReset(), 0);
  }

  /**
   * An accepted character becomes the placeholder exactly when it is not "0":
   * "0" passes validation, but the service treats it as empty and uses "@".
   */
  lemma AcceptedCharacterIsPlaceholder(replacementCharacter: string, muhurtas: seq<string>)
    requires ValidateCharacter(replacementCharacter).Accepted?
    ensures var c := GetCharacterToReplace(SubmitForm(replacementCharacter, muhurtas));
            (c == replacementCharacter <==> replacementCharacter != "0")
            && (replacementCharacter == "0" ==> c == FallbackCharacter)
  {
  }

  /**
   * The form's defaults and the service's fallbacks differ: an unset character
   * shows as "q" but is used as "@", a stored "" shows as "" but is used as "@",
   * and a reset stores "q", which the service uses as is.
   */
  lemma FormAndServiceDefaults(muhurtas: Option<seq<string>>)
    ensures CharacterFieldDefault(None) == DefaultCharacter
    ensures GetCharacterToReplace(Settings(None, muhurtas)) == FallbackCharacter
    ensures CharacterFieldDefault(Some("")) == ""
    ensures GetCharacterToReplace(Settings(Some(""), muhurtas)) == FallbackCharacter
    ensures GetCharacterToReplace(SubmitFormReset()) == DefaultCharacter != FallbackCharacter
  {
  }

  /**
   * With a submitted character that validation accepts and that is not "0",
   * the pattern is split at exactly the occurrences of that byte: every
   * fragment is the character or free of it, and there are as many
   * placeholder fragments as occurrences.
   */
  lemma SubmittedCharacterSplitsPattern(replacementCharacter: string, muhurtas: seq<string>, pattern: string)
    requires ValidateCharacter(replacementCharacter).Accepted? && replacementCharacter != "0"
    ensures var c := GetCharacterToReplace(SubmitForm(replacementCharacter, muhurtas));
            var r := Explode(c, pattern);
            c == replacementCharacter
            && (forall i :: 0 <= i < |r| ==> r[i] == c || FreeOf(r[i], c[0]))
            && CountOf(r, c) == CountByte(pattern, c[0])
  {
    ExplodeSingleByte(replacementCharacter, pattern);
  }

  /** After a reset, the custom pattern "q" formats to the default name of the current period. */
  lemma FormatAfterReset(timestamp: int, timezone: Option<string>, langcode: Option<string>, env: Collaborators)
    requires env.settings == SubmitFormReset()
    requires 0 <= timestamp - env.sunrise(timestamp, EffectiveTimezone(timezone, env)) < SecondsPerDay
    ensures var i := PeriodIndex(timestamp, env.sunrise(timestamp, EffectiveTimezone(timezone, env)));
            0 <= i < |Muhurtas|
            && FormatResult(timestamp, CustomType, DefaultCharacter, timezone, langcode, env) == Muhurtas[i]
  {
    var tz := EffectiveTimezone(timezone, env);
    var ctx := RenderContext(timestamp, tz, EffectiveLangcode(langcode, env));
    var c := GetCharacterToReplace(env.settings);
    assert c == "q";
    var replacement := CalculateReplacement(timestamp, env.sunrise(timestamp, tz), env.settings);
    ResetLabelsCoverDay(timestamp, env.sunrise(timestamp, tz));
    assert Explode(c, "q") == ["q"] by {
      assert StrPos("q", "q", 0) == Some(0);
      assert StrPos("q", "q", 1) == None;
      assert "q"[0..0] == "";
    }
    assert Assemble(["q"], c, replacement, env.inner, ctx) == replacement + "" by {
      assert ["q"][1..] == [];
    }
    assert replacement + "" == replacement;
  }
}
