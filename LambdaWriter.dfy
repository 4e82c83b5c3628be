/** The diagnostic writer the compiler reports through: every line it is given
    is wrapped in a colour tag and handed, once, to the console's printer. The
    model returns the string the printer receives. */
module LambdaWriter {
  import opened Strings

  /** Colour of an error line. */
  const ERROR: string := "#ff5370"

  /** Colour of a warning line. */
  const WARNING: string := "yellow"

  /** The colour a diagnostic line is shown in: a line is a warning exactly when
      it contains the lower-case word "warning". */
  function Colour(value: string): (c: string)
    ensures c == WARNING || c == ERROR
  {
    if Contains(value, "warning") then WARNING else ERROR
  }

  /** The opening tag for colour `c`. */
  function OpenTag(c: string): string
  {
    "<color=" + c + ">"
  }

  /** The closing tag. */
  const CLOSE_TAG: string := "</color>"

  /** `WriteLine(value)`: the one string passed to the printer. */
  function WriteLine(value: string): (printed: string)
    ensures IsPrefix(OpenTag(Colour(value)), printed)
    ensures printed[|printed| - |CLOSE_TAG|..] == CLOSE_TAG
  {
    OpenTag(Colour(value)) + value + CLOSE_TAG
  }

  /** A line is shown in the warning colour iff "warning" occurs in it somewhere. */
  lemma WarningIffOccurs(value: string)
    ensures Colour(value) == WARNING <==> exists i :: OccursAt(value, "warning", i)
    ensures Colour(value) == ERROR <==> !exists i :: OccursAt(value, "warning", i)
  {
    ContainsIffOccurs(value, "warning");
  }

  /** The check is case-sensitive: a line with no lower-case 'w' (say one that
      only says "Warning") is shown in the error colour. */
  lemma NoLowerCaseWIsError(value: string)
    requires 'w' !in value
    ensures Colour(value) == ERROR
  {
    MissingFirstChar(value, "warning");
  }

  /** Wherever "warning" stands in a line, the line is shown in yellow. */
  lemma WarningAnywhere(before: string, after: string)
    ensures WriteLine(before + "warning" + after) == "<color=yellow>" + before + "warning" + after + "</color>"
  {
    var v := before + "warning" + after;
    assert OccursAt(v, "warning", |before|);
    ContainsIffOccurs(v, "warning");
  }

  /** Removing the tags from the printed string gives back the line unchanged. */
  lemma StripTags(value: string)
    ensures var printed := WriteLine(value);
      printed[|OpenTag(Colour(value))|..|printed| - |CLOSE_TAG|] == value
  {
    var printed := WriteLine(value);
    assert printed == OpenTag(Colour(value)) + value + CLOSE_TAG;
  }
}
