/**
  Classification of an inbound text into one command. The text is first
  trimmed and lower-cased; the tests then run in a fixed order: `start#`,
  `details#`, `myself`, `match#`, `next`, exactly ten digits, `describe `,
  `yes`.
*/
module Commands {
  import opened Text

  datatype Command =
    | Start
    | SubmitDetails
    | Myself
    | Match
    | Next
    | Profile
    | Describe
    | Yes
    | Unsupported

  /** `message.strip().lower()`: the stripped text with every letter in
      lower case, and already in normal form itself (nothing left to strip
      or lower-case). */
  function Normalize(text: string): (m: string)
    ensures |m| == |Strip(text)|
    ensures forall i :: 0 <= i < |m| ==> m[i] == LowerChar(Strip(text)[i])
    ensures IsLowered(m)
    ensures Strip(m) == m && Lower(m) == m
  {
    var t := Strip(text);
    var m := Lower(t);
    LowerIsLowered(t);
    StripUnpadded(m);
    m
  }

  /** `re.fullmatch(r"\d{10}", m)` on ASCII digits. */
  predicate IsTenDigits(m: string) {
    |m| == 10 && IsDigits(m)
  }

  /** The dispatch chain. No two tests can both succeed (the keywords differ
      within their first three letters and a ten-digit text starts with a
      digit), so each command is recognised by its own test alone and the
      order of the chain never decides anything. */
  function Classify(m: string): (c: Command)
    ensures c == Start <==> StartsWith(m, "start#")
    ensures c == SubmitDetails <==> StartsWith(m, "details#")
    ensures c == Myself <==> StartsWith(m, "myself")
    ensures c == Match <==> StartsWith(m, "match#")
    ensures c == Next <==> StartsWith(m, "next")
    ensures c == Profile <==> IsTenDigits(m)
    ensures c == Describe <==> StartsWith(m, "describe ")
    ensures c == Yes <==> StartsWith(Upper(m), "YES")
    ensures c == Unsupported <==>
      !StartsWith(m, "start#") && !StartsWith(m, "details#") && !StartsWith(m, "myself")
      && !StartsWith(m, "match#") && !StartsWith(m, "next") && !IsTenDigits(m)
      && !StartsWith(m, "describe ") && !StartsWith(Upper(m), "YES")
  {
    PrefixesExclusive(m);
    if StartsWith(m, "start#") then Start
    else if StartsWith(m, "details#") then SubmitDetails
    else if StartsWith(m, "myself") then Myself
    else if StartsWith(m, "match#") then Match
    else if StartsWith(m, "next") then Next
    else if IsTenDigits(m) then Profile
    else if StartsWith(m, "describe ") then Describe
    else if StartsWith(Upper(m), "YES") then Yes
    else Unsupported
  }

  /** A prefix fixes the first characters of the text. */
  lemma PrefixChars(m: string, p: string)
    requires StartsWith(m, p)
    ensures forall i :: 0 <= i < |p| ==> m[i] == p[i]
  {
    assert forall i :: 0 <= i < |p| ==> m[..|p|][i] == m[i];
  }

  /** Every pair of tests in the chain excludes each other. */
  lemma PrefixesExclusive(m: string)
    ensures StartsWith(m, "start#") ==>
      (!StartsWith(m, "details#") && !StartsWith(m, "myself") && !StartsWith(m, "match#")
       && !StartsWith(m, "next") && !IsTenDigits(m) && !StartsWith(m, "describe ")
       && !StartsWith(Upper(m), "YES"))
    ensures StartsWith(m, "details#") ==>
      (!StartsWith(m, "myself") && !StartsWith(m, "match#") && !StartsWith(m, "next")
       && !IsTenDigits(m) && !StartsWith(m, "describe ") && !StartsWith(Upper(m), "YES"))
    ensures StartsWith(m, "myself") ==>
      (!StartsWith(m, "match#") && !StartsWith(m, "next") && !IsTenDigits(m)
       && !StartsWith(m, "describe ") && !StartsWith(Upper(m), "YES"))
    ensures StartsWith(m, "match#") ==>
      (!StartsWith(m, "next") && !IsTenDigits(m) && !StartsWith(m, "describe ")
       && !StartsWith(Upper(m), "YES"))
    ensures StartsWith(m, "next") ==>
      (!IsTenDigits(m) && !StartsWith(m, "describe ") && !StartsWith(Upper(m), "YES"))
    ensures IsTenDigits(m) ==> !StartsWith(m, "describe ") && !StartsWith(Upper(m), "YES")
    ensures StartsWith(m, "describe ") ==> !StartsWith(Upper(m), "YES")
  {
    if StartsWith(Upper(m), "YES") {
      PrefixChars(Upper(m), "YES");
      assert m[0] == 'y' || m[0] == 'Y';
    }
    if StartsWith(m, "start#") { PrefixChars(m, "start#"); }
    if StartsWith(m, "details#") {
      PrefixChars(m, "details#");
      assert m[2] == 't';
    }
    if StartsWith(m, "myself") {
      PrefixChars(m, "myself");
      assert m[1] == 'y';
    }
    if StartsWith(m, "match#") {
      PrefixChars(m, "match#");
      assert m[1] == 'a';
    }
    if StartsWith(m, "next") { PrefixChars(m, "next"); }
    if StartsWith(m, "describe ") {
      PrefixChars(m, "describe ");
      assert m[2] == 's';
    }
  }

  /** On a normalised text the `yes` test is a plain prefix test. */
  lemma YesOnNormalized(text: string)
    ensures Classify(Normalize(text)) == Yes <==> StartsWith(Normalize(text), "yes")
  {
    UpperPrefixOnLowered(Normalize(text));
  }
}
