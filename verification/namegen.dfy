/** The short name generator.  Its generation algorithm exists only as
    commented-out code: the helpers return constants and
    `generateShortName` builds a short name from the empty string. */
module NameGen {
  import opened Wrappers
  import opened Bytes
  import ShortName

  /** `validChar`: upper-case letters, digits and the punctuation the FAT
      short name alphabet allows. */
  predicate ValidChar(c: Char8)
  {
    ('A' <= c <= 'Z') || ('0' <= c <= '9')
    || c in {'_', '^', '$', '~', '!', '#', '%', '&', '-', '{', '}', '(', ')', '@', '\'', '`'}
  }

  /** `isSkipChar`: dots and spaces are dropped from a long name. */
  predicate IsSkipChar(c: Char8)
  {
    c == '.' || c == ' '
  }

  /** A character the generator would keep is legal anywhere in a short
      name, is not one it skips, and is its own upper-case form. */
  lemma ValidCharsAreLegal(c: Char8)
    requires ValidChar(c)
    ensures ShortName.LegalChar(c) && !IsSkipChar(c) && UpperChar(c) == c
  {
  }

  /** `tidyString`: stubbed, always the empty string. */
  function TidyString(dirty: Str): (r: Str)
    ensures |r| == 0
  {
    []
  }

  /** `cleanString`: stubbed, accepts every string. */
  function CleanString(s: Str): (b: bool)
    ensures b
  {
    true
  }

  /** `stripLeadingPeriods`: stubbed, always the empty string. */
  function StripLeadingPeriods(str: Str): (r: Str)
    ensures |r| == 0
  {
    []
  }

  /** `generateShortName`: `ShortName("")`, which the explicit constructor
      rejects because the name part needs at least one character. */
  function GenerateShortName(usedNames: set<Str>, longFullName: Str): (r: Result<ShortName.ShortName>)
    ensures r == Err(BadNameLength)
  {
    ShortName.FromString([])
  }
}
