/** The closed enumerations of `addon/enums.py`. */
module Enums {

  /** Part of speech of a German word. `PLURAL` marks a noun that has no singular. */
  datatype SpeachPart = NOUN | VERB | ADJECTIVE | ADVERB | PRONOUN | NUMBER | JUNKTION | PLURAL

  /** Grammatical gender of a German noun. */
  datatype Gender = MALE | FEMALE | NEUTRAL

  /** The string value each `SpeachPart` member carries (the enum is a `str` enum). */
  function SpeachPartValue(p: SpeachPart): string
  {
    match p
    case NOUN => "NOUN"
    case VERB => "VERB"
    case ADJECTIVE => "ADJECTIVE"
    case ADVERB => "ADVERB"
    case PRONOUN => "PRONOUN"
    case NUMBER => "NUMBER"
    case JUNKTION => "JUNKTION"
    case PLURAL => "PLURAL"
  }
}
