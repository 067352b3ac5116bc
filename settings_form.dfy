/**
 * The settings form (CustomDateFormatterSettingsForm): validation of the
 * replacement character, normalisation of the submitted label list, the reset
 * to defaults, and the defaults the form shows for unset keys.
 */
module CustomDateFormatterSettingsForm {
  import opened Wrappers
  import opened Php
  import opened Config

  /** Number of label fields, and the length of every stored label list. */
  const StringArraySize: nat := 30

  /** The character the form offers and restores by default. */
  const DefaultCharacter: string := "q"

  /** The default names of the thirty muhurtas, in order from sunrise. */
  const Muhurtas: seq<string> := [
    "Cryer",
    "Serpent",
    "Friend",
    "Father",
    "Bright",
    "Boar",
    "Heavenly Lights in the Universe",
    "Insight",
    "Goat/Charioteer-Face",
    "Many Offerings",
    "Possessed of Chariot",
    "Night Maker",
    "All-Enveloping Night Sky",
    "Possessed of Nobility",
    "Stake",
    "Lord who Lifted the Mount (Krishna)",
    "Unborn Foot",
    "Serpent at the Bottom",
    "Nourishment",
    "Horsement",
    "Restrainer",
    "Ignition",
    "Distributor",
    "Ornament",
    "Limitless",
    "Immortal",
    "All Pervading",
    "Resounding Light",
    "Universe",
    "Ocean"
  ]

  /** The outcome of an element validator: no error, or the error set on the element. */
  datatype Validation = Accepted | Rejected(message: string)

  /** validateCharacter: the value must be exactly one byte long (`strlen`). */
  function ValidateCharacter(value: string): (v: Validation)
    ensures v.Rejected? <==> |value| != 1
    ensures v.Rejected? ==> v.message == "Please enter exactly one character."
  {
    if |value| != 1 then Rejected("Please enter exactly one character.") else Accepted
  }

  /** A submitted character is accepted exactly when its UTF-8 encoding is one byte: only ASCII passes. */
  lemma ValidateCharacterCountsBytes(c: char)
    ensures ValidateCharacter(Utf8Encode(c)).Accepted? <==> (c as int) < 0x80
  {
  }

  /** `array_pad(array_slice($muhurtas, 0, 30), 30, '')`: the list cut or padded to thirty entries. */
  function NormalizeMuhurtas(submitted: seq<string>): (stored: seq<string>)
    ensures |stored| == StringArraySize
    ensures forall i :: 0 <= i < |submitted| && i < StringArraySize ==> stored[i] == submitted[i]
    ensures forall i :: |submitted| <= i < StringArraySize ==> stored[i] == ""
  {
    ArrayPad(ArraySlice(submitted, 0, StringArraySize), StringArraySize, "")
  }

  /** Normalising twice changes nothing more, and a list of the right length is stored as submitted. */
  lemma NormalizeMuhurtasIsStable(submitted: seq<string>)
    ensures NormalizeMuhurtas(NormalizeMuhurtas(submitted)) == NormalizeMuhurtas(submitted)
    ensures |submitted| == StringArraySize ==> NormalizeMuhurtas(submitted) == submitted
  {
    var once := NormalizeMuhurtas(submitted);
    assert NormalizeMuhurtas(once) == once;
    if |submitted| == StringArraySize {
      assert once == submitted;
    }
  }

  /** The stored list is exactly the submitted prefix followed by blanks. */
  lemma NormalizeMuhurtasShape(submitted: seq<string>)
    ensures |submitted| >= StringArraySize ==> NormalizeMuhurtas(submitted) == submitted[..StringArraySize]
    ensures |submitted| < StringArraySize ==>
              NormalizeMuhurtas(submitted) == submitted + seq(StringArraySize - |submitted|, _ => "")
  {
    var stored := NormalizeMuhurtas(submitted);
    if |submitted| >= StringArraySize {
      assert stored == submitted[..StringArraySize];
    } else {
      assert stored == submitted + seq(StringArraySize - |submitted|, _ => "");
    }
  }

  /** submitForm: the configuration saved from the submitted character and label list. */
  function SubmitForm(replacementCharacter: string, muhurtas: seq<string>): (saved: Settings)
    ensures saved.replacementCharacter == Some(replacementCharacter)
    ensures saved.muhurtas.Some? && |saved.muhurtas.value| == StringArraySize
    ensures saved.muhurtas == Some(NormalizeMuhurtas(muhurtas))
  {
    Settings(Some(replacementCharacter), Some(NormalizeMuhurtas(muhurtas)))
  }

  /** submitFormReset: the configuration saved by the reset button. */
  function SubmitFormReset(): (saved: Settings)
    ensures saved.replacementCharacter == Some(DefaultCharacter)
    ensures saved.muhurtas == Some(Muhurtas)
  {
    Settings(Some(DefaultCharacter), Some(Muhurtas))
  }

  /**
   * The defaults are a valid submission: the character passes validation, there
   * are exactly thirty names, none blank, and resetting saves what submitting
   * the defaults would save.
   */
  lemma ResetDefaultsAreValid()
    ensures ValidateCharacter(DefaultCharacter).Accepted?
    ensures |Muhurtas| == StringArraySize
    ensures forall i :: 0 <= i < |Muhurtas| ==> !PhpEmpty(Muhurtas[i])
    ensures SubmitFormReset() == SubmitForm(DefaultCharacter, Muhurtas)
  {
    NormalizeMuhurtasIsStable(Muhurtas);
  }

  /** The character field's default: the stored value unless it is NULL (`??`). */
  function CharacterFieldDefault(stored: Option<string>): (shown: string)
    ensures stored.None? ==> shown == DefaultCharacter
    ensures stored.Some? ==> shown == stored.value
  {
    stored.GetOr(DefaultCharacter)
  }

  /**
   * The default of the i-th label field: entry i of the stored list, or of the
   * default names when the list is NULL (`??`); NULL past the end of the list.
   */
  function MuhurtaFieldDefault(stored: Option<seq<string>>, i: nat): (shown: Option<string>)
    ensures stored.None? && i < StringArraySize ==> shown == Some(Muhurtas[i])
    ensures stored.Some? ==> shown == if i < |stored.value| then Some(stored.value[i]) else None
  {
    var muhurtas := stored.GetOr(Muhurtas);
    if i < |muhurtas| then Some(muhurtas[i]) else None
  }
}
