/**
 * The text transforms of the two editor commands "Remove newlines" and
 * "Anonymize", applied to the selected text.
 */
module PlaintextHelpers {
  import opened JsString

  /** `selectedText.replace(/\n/g, ' ')`. */
  function RemoveNewlines(s: string): (r: string)
    ensures |r| == |s|
    ensures forall i :: 0 <= i < |s| ==> r[i] == (if s[i] == '\n' then ' ' else s[i])
  {
    if s == [] then [] else [if s[0] == '\n' then ' ' else s[0]] + RemoveNewlines(s[1..])
  }

  /** After newline removal no `\n` is left. */
  lemma RemoveNewlinesLeavesNone(s: string)
    ensures '\n' !in RemoveNewlines(s)
  {
    var r := RemoveNewlines(s);
    assert forall i :: 0 <= i < |r| ==> r[i] != '\n';
  }

  /** Removing newlines twice is the same as removing them once. */
  lemma RemoveNewlinesIdempotent(s: string)
    ensures RemoveNewlines(RemoveNewlines(s)) == RemoveNewlines(s)
  {
    var r := RemoveNewlines(s);
    assert forall i :: 0 <= i < |r| ==> r[i] != '\n';
  }

  /** `selectedText.replace(/\w/g, '_')`. */
  function Anonymize(s: string): (r: string)
    ensures |r| == |s|
    ensures forall i :: 0 <= i < |s| ==> r[i] == (if IsWordChar(s[i]) then '_' else s[i])
  {
    if s == [] then [] else [if IsWordChar(s[0]) then '_' else s[0]] + Anonymize(s[1..])
  }

  /** No ASCII letter or digit survives anonymisation. */
  lemma AnonymizeLeavesNoLetters(s: string)
    ensures forall i :: 0 <= i < |s| ==> !IsAsciiLetterOrDigit(Anonymize(s)[i])
  {
  }

  /** Anonymising twice is the same as anonymising once. */
  lemma AnonymizeIdempotent(s: string)
    ensures Anonymize(Anonymize(s)) == Anonymize(s)
  {
    var r := Anonymize(s);
    assert forall i :: 0 <= i < |r| ==> (IsWordChar(r[i]) ==> r[i] == '_');
  }
}
