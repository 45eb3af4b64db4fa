/**
  ASCII models of the few Python `str` operations the SMS engine relies on:
  `strip`, `lower`, `upper`, `title`, `split(sep)`, `split()`, `startswith`
  and `int(...)`, on ASCII text only: Unicode case mapping and Unicode
  digits/whitespace are not modelled. `int(...)` keeps its own whitespace
  set and its underscore rule; its limit on the number of digits is not
  modelled.
*/
module Text {

  datatype Option<+T> = None | Some(value: T)

  /** Python's `str.isspace` on ASCII: space, \t \n \v \f \r and the four
      separators 0x1C..0x1F. */
  predicate IsSpace(c: char) {
    c == ' ' || 9 <= c as int <= 13 || 28 <= c as int <= 31
  }

  predicate IsDigit(c: char) { '0' <= c <= '9' }
  predicate IsUpper(c: char) { 'A' <= c <= 'Z' }
  predicate IsLowerLetter(c: char) { 'a' <= c <= 'z' }
  predicate IsLetter(c: char) { IsUpper(c) || IsLowerLetter(c) }

  function LowerChar(c: char): char {
    if IsUpper(c) then (c as int + 32) as char else c
  }

  function UpperChar(c: char): char {
    if IsLowerLetter(c) then (c as int - 32) as char else c
  }

  predicate StartsWith(s: string, prefix: string) {
    |prefix| <= |s| && s[..|prefix|] == prefix
  }

  predicate AllSpace(s: string) {
    forall i :: 0 <= i < |s| ==> IsSpace(s[i])
  }

  predicate NoSpace(s: string) {
    forall i :: 0 <= i < |s| ==> !IsSpace(s[i])
  }

  // ---------------------------------------------------------------- strip

  /** Number of whitespace characters at the front of `s`. */
  function LeadingSpaces(s: string): (n: nat)
    ensures n <= |s|
    ensures AllSpace(s[..n])
    ensures n < |s| ==> !IsSpace(s[n])
    decreases |s|
  {
    if |s| > 0 && IsSpace(s[0]) then 1 + LeadingSpaces(s[1..]) else 0
  }

  /** Number of whitespace characters at the back of `s`. */
  function TrailingSpaces(s: string): (n: nat)
    ensures n <= |s|
    ensures AllSpace(s[|s| - n..])
    ensures n < |s| ==> !IsSpace(s[|s| - n - 1])
    decreases |s|
  {
    if |s| > 0 && IsSpace(s[|s| - 1]) then
      var init := s[..|s| - 1];
      var m := TrailingSpaces(init);
      var tail, initTail := s[|s| - (1 + m)..], init[|init| - m..];
      forall j | 0 <= j < 1 + m
        ensures IsSpace(tail[j])
      {
        if j < m {
          assert tail[j] == initTail[j];
        }
      }
      assert m < |init| ==> s[|s| - m - 2] == init[|init| - m - 1];
      1 + m
    else 0
  }

  /** Python `s.strip()`: the infix of `s` left after dropping leading and
      trailing whitespace. */
  function Strip(s: string): (r: string)
    ensures LeadingSpaces(s) + |r| <= |s|
    ensures r == s[LeadingSpaces(s)..LeadingSpaces(s) + |r|]
    ensures AllSpace(s[LeadingSpaces(s) + |r|..])
    ensures |r| > 0 ==> !IsSpace(r[0]) && !IsSpace(r[|r| - 1])
  {
    var t := s[LeadingSpaces(s)..];
    t[..|t| - TrailingSpaces(t)]
  }

  /** A string with no whitespace at either end is its own strip. */
  lemma StripUnpadded(s: string)
    requires |s| == 0 || (!IsSpace(s[0]) && !IsSpace(s[|s| - 1]))
    ensures Strip(s) == s
  {
    assert LeadingSpaces(s) == 0;
    assert TrailingSpaces(s) == 0;
  }

  /** One whitespace character before an unpadded string is stripped away. */
  lemma StripOneSpace(c: char, d: string)
    requires IsSpace(c) && |d| > 0 && !IsSpace(d[0]) && !IsSpace(d[|d| - 1])
    ensures Strip([c] + d) == d
  {
    var t := [c] + d;
    assert t[1..] == d;
    assert LeadingSpaces(d) == 0;
    assert LeadingSpaces(t) == 1;
    assert TrailingSpaces(d) == 0;
  }

  // ---------------------------------------------------------------- case

  predicate IsLowered(s: string) {
    forall i :: 0 <= i < |s| ==> !IsUpper(s[i])
  }

  /** Python `s.lower()` on ASCII: no upper-case letter is left, every
      character that is not an upper-case letter is kept, and each character
      keeps its upper-case form, so only the case of letters changes. */
  function Lower(s: string): (r: string)
    ensures |r| == |s|
    ensures IsLowered(r)
    ensures forall i :: 0 <= i < |s| && !IsUpper(s[i]) ==> r[i] == s[i]
    ensures forall i :: 0 <= i < |s| ==> UpperChar(r[i]) == UpperChar(s[i])
    ensures forall i :: 0 <= i < |s| ==> r[i] == LowerChar(s[i])
  {
    seq(|s|, i requires 0 <= i < |s| => LowerChar(s[i]))
  }

  /** Python `s.upper()` on ASCII. */
  function Upper(s: string): (r: string)
    ensures |r| == |s|
    ensures forall i :: 0 <= i < |s| ==> r[i] == UpperChar(s[i])
  {
    seq(|s|, i requires 0 <= i < |s| => UpperChar(s[i]))
  }

  /** Lower-casing leaves no upper-case letter and is idempotent. */
  lemma LowerIsLowered(s: string)
    ensures IsLowered(Lower(s))
    ensures Lower(Lower(s)) == Lower(s)
  {
  }

  /** On lower-cased text, `upper().startswith("YES")` is the same test as
      `startswith("yes")`. */
  lemma UpperPrefixOnLowered(m: string)
    requires IsLowered(m)
    ensures StartsWith(Upper(m), "YES") <==> StartsWith(m, "yes")
  {
    if StartsWith(Upper(m), "YES") {
      assert Upper(m)[0] == 'Y' && Upper(m)[1] == 'E' && Upper(m)[2] == 'S';
      assert m[..3] == "yes";
    }
    if StartsWith(m, "yes") {
      assert m[0] == 'y' && m[1] == 'e' && m[2] == 's';
      assert Upper(m)[..3] == "YES";
    }
  }

  /** Title-casing from a position whose predecessor is (`prevCased`) or is not
      a letter. */
  function TitleFrom(s: string, prevCased: bool): (r: string)
    ensures |r| == |s|
    ensures forall i :: 0 <= i < |s| ==> LowerChar(r[i]) == LowerChar(s[i])
    ensures forall i :: 0 <= i < |s| ==> (IsLetter(r[i]) <==> IsLetter(s[i]))
    ensures forall i :: 0 <= i < |s| && IsLetter(s[i]) ==>
              (IsUpper(r[i]) <==> (if i == 0 then !prevCased else !IsLetter(s[i - 1])))
    decreases |s|
  {
    if |s| == 0 then ""
    else
      var c := if prevCased then LowerChar(s[0]) else UpperChar(s[0]);
      var rest := TitleFrom(s[1..], IsLetter(s[0]));
      assert forall i :: 1 <= i < |s| ==> s[1..][i - 1] == s[i];
      [c] + rest
  }

  /** Python `s.title()` on ASCII: a letter is upper-cased exactly when it
      starts a run of letters, every other letter is lower-cased, and
      non-letters are untouched. */
  function Title(s: string): (r: string)
    ensures |r| == |s|
    ensures Lower(r) == Lower(s)
    ensures forall i :: 0 <= i < |s| && IsLetter(s[i]) ==>
              (IsUpper(r[i]) <==> (i == 0 || !IsLetter(s[i - 1])))
  {
    TitleFrom(s, false)
  }

  /** Title-casing loses no information on lower-cased text: two lower-cased
      strings with the same title are equal. */
  lemma TitleInjectiveOnLowered(a: string, b: string)
    requires Lower(a) == a && Lower(b) == b
    ensures Title(a) == Title(b) <==> a == b
  {
    if Title(a) == Title(b) {
      calc {
        a;
        Lower(a);
        Lower(Title(a));
        Lower(Title(b));
        Lower(b);
        b;
      }
    }
  }

  // ---------------------------------------------------------------- split(sep)

  function Count(s: string, c: char): nat
    decreases |s|
  {
    if |s| == 0 then 0 else (if s[0] == c then 1 else 0) + Count(s[1..], c)
  }

  /** The inverse of Split: the parts glued back with the separator. */
  function Join(parts: seq<string>, sep: char): string
    decreases |parts|
  {
    if |parts| == 0 then ""
    else if |parts| == 1 then parts[0]
    else parts[0] + [sep] + Join(parts[1..], sep)
  }

  /** Python `s.split(sep)` for a one-character separator: never empty, one
      more part than there are separators, no part contains the separator,
      and joining the parts gives back `s`. */
  function Split(s: string, sep: char): (parts: seq<string>)
    ensures |parts| == Count(s, sep) + 1
    ensures forall i :: 0 <= i < |parts| ==> sep !in parts[i]
    ensures Join(parts, sep) == s
    decreases |s|
  {
    if |s| == 0 then [""]
    else
      var rest := Split(s[1..], sep);
      if s[0] == sep then
        assert Join([""] + rest, sep) == "" + [sep] + Join(rest, sep) by {
          assert ([""] + rest)[1..] == rest;
        }
        assert s == [sep] + s[1..];
        [""] + rest
      else
        var parts := [[s[0]] + rest[0]] + rest[1..];
        assert parts[1..] == rest[1..];
        assert s == [s[0]] + s[1..];
        parts
  }

  /** Splitting a joined list gives the list back when no part holds the
      separator. */
  lemma {:induction false} SplitJoin(parts: seq<string>, sep: char)
    requires |parts| >= 1
    requires forall i :: 0 <= i < |parts| ==> sep !in parts[i]
    ensures Split(Join(parts, sep), sep) == parts
    decreases |parts|
  {
    if |parts| == 1 {
      SplitNoSep(parts[0], "", sep, false);
    } else {
      SplitJoin(parts[1..], sep);
      SplitNoSep(parts[0], Join(parts[1..], sep), sep, true);
    }
  }

  /** Splitting `a` (free of the separator), optionally followed by the
      separator and `b`. */
  lemma {:induction false} SplitNoSep(a: string, b: string, sep: char, more: bool)
    requires sep !in a
    requires !more ==> b == ""
    ensures more ==> Split(a + [sep] + b, sep) == [a] + Split(b, sep)
    ensures !more ==> Split(a, sep) == [a]
    decreases |a|
  {
    if |a| == 0 {
      if more {
        var s := a + [sep] + b;
        assert s == [sep] + b;
        assert s[0] == sep && s[1..] == b;
      }
    } else {
      SplitNoSep(a[1..], b, sep, more);
      assert a == [a[0]] + a[1..];
      if more {
        var s := a + [sep] + b;
        assert s[0] == a[0] && s[0] != sep;
        assert s[1..] == a[1..] + [sep] + b;
        var rest := Split(s[1..], sep);
        assert rest == [a[1..]] + Split(b, sep);
        assert Split(s, sep) == [[a[0]] + rest[0]] + rest[1..];
        assert rest[1..] == Split(b, sep);
      } else {
        assert a == [a[0]] + a[1..];
      }
    }
  }

  // ---------------------------------------------------------------- split()

  /** The whitespace characters of `s`, in order. */
  function SpacesOf(s: string): (sp: string)
    ensures AllSpace(sp)
    decreases |s|
  {
    if |s| == 0 then ""
    else (if IsSpace(s[0]) then [s[0]] else "") + SpacesOf(s[1..])
  }

  /** The inverse of SplitSpaces: the pieces glued back with the given
      separators, one between each neighbouring pair. */
  function Interleave(pieces: seq<string>, seps: string): string
    requires |pieces| == |seps| + 1
    decreases |seps|
  {
    if |seps| == 0 then pieces[0]
    else pieces[0] + [seps[0]] + Interleave(pieces[1..], seps[1..])
  }

  /** Extending the first piece at the front extends the glued text. */
  lemma InterleaveCons(c: char, pieces: seq<string>, seps: string)
    requires |pieces| == |seps| + 1
    ensures Interleave([[c] + pieces[0]] + pieces[1..], seps) == [c] + Interleave(pieces, seps)
  {
    var longer := [[c] + pieces[0]] + pieces[1..];
    assert longer[1..] == pieces[1..];
  }

  /** Cutting `s` at every whitespace character: one more piece than there
      are whitespace characters, no piece holds whitespace, and interleaving
      the pieces with those characters gives back `s`. */
  function SplitSpaces(s: string): (pieces: seq<string>)
    ensures |pieces| == |SpacesOf(s)| + 1
    ensures forall i :: 0 <= i < |pieces| ==> NoSpace(pieces[i])
    ensures Interleave(pieces, SpacesOf(s)) == s
    ensures |s| == 0 || IsSpace(s[0]) ==> pieces[0] == ""
    ensures |s| > 0 && !IsSpace(s[0]) ==> |pieces[0]| > 0 && pieces[0][0] == s[0]
    decreases |s|
  {
    if |s| == 0 then [""]
    else
      var rest := SplitSpaces(s[1..]);
      assert s == [s[0]] + s[1..];
      if IsSpace(s[0]) then
        var pieces := [""] + rest;
        assert pieces[1..] == rest;
        pieces
      else
        var pieces := [[s[0]] + rest[0]] + rest[1..];
        assert SpacesOf(s) == SpacesOf(s[1..]);
        InterleaveCons(s[0], rest, SpacesOf(s[1..]));
        assert forall i :: 1 <= i < |pieces| ==> pieces[i] == rest[i];
        pieces
  }

  /** The pieces that are not empty, in order. */
  function NonEmpty(pieces: seq<string>): (r: seq<string>)
    ensures forall i :: 0 <= i < |r| ==> |r[i]| > 0
    decreases |pieces|
  {
    if |pieces| == 0 then []
    else (if pieces[0] == "" then [] else [pieces[0]]) + NonEmpty(pieces[1..])
  }

  /** Python `s.split()` with no argument: cut at every whitespace character
      and drop the empty pieces, which leaves the maximal runs of
      non-whitespace characters in order. */
  function Words(s: string): (ws: seq<string>)
    ensures forall i :: 0 <= i < |ws| ==> |ws[i]| > 0 && NoSpace(ws[i])
    ensures |s| > 0 && !IsSpace(s[0]) ==> |ws| > 0 && ws[0][0] == s[0]
    decreases |s|
  {
    if |s| == 0 then []
    else if IsSpace(s[0]) then Words(s[1..])
    else
      var rest := Words(s[1..]);
      if |s| > 1 && !IsSpace(s[1]) then [[s[0]] + rest[0]] + rest[1..]
      else [[s[0]]] + rest
  }

  /** NonEmpty looks at one piece at a time. */
  lemma NonEmptyCons(p: string, ps: seq<string>)
    ensures NonEmpty([p] + ps) == (if p == "" then [] else [p]) + NonEmpty(ps)
  {
    assert ([p] + ps)[1..] == ps;
  }

  /** SplitSpaces looks at one character at a time. */
  lemma SplitSpacesCons(s: string)
    requires |s| > 0
    ensures var sp := SplitSpaces(s[1..]);
      SplitSpaces(s) == if IsSpace(s[0]) then [""] + sp else [[s[0]] + sp[0]] + sp[1..]
  {
  }

  /** The words are exactly the non-empty pieces of the cut at every
      whitespace character. */
  lemma {:induction false} WordsSplit(s: string)
    ensures Words(s) == NonEmpty(SplitSpaces(s))
    decreases |s|
  {
    if |s| > 0 {
      var sp := SplitSpaces(s[1..]);
      assert Words(s[1..]) == NonEmpty(sp) by {
        WordsSplit(s[1..]);
      }
      SplitSpacesCons(s);
      assert sp == [sp[0]] + sp[1..];
      NonEmptyCons(sp[0], sp[1..]);
      if IsSpace(s[0]) {
        NonEmptyCons("", sp);
      } else {
        NonEmptyCons([s[0]] + sp[0], sp[1..]);
        if |s| > 1 && !IsSpace(s[1]) {
          assert s[1..][0] == s[1] && sp[0] != "";
        } else {
          assert sp[0] == "" && [s[0]] + sp[0] == [s[0]];
        }
      }
    }
  }

  /** A non-empty word followed by nothing or by whitespace splits off as the
      first word. */
  lemma {:induction false} WordsFirst(a: string, t: string)
    requires |a| > 0 && NoSpace(a)
    requires |t| == 0 || IsSpace(t[0])
    ensures Words(a + t) == [a] + Words(t)
    decreases |a|
  {
    var s := a + t;
    assert s[0] == a[0] && !IsSpace(s[0]);
    if |a| == 1 {
      assert s[1..] == t;
      assert a == [a[0]];
      assert Words(s) == [[a[0]]] + Words(t);
    } else {
      WordsFirst(a[1..], t);
      assert s[1..] == a[1..] + t;
      assert s[1] == a[1] && !IsSpace(s[1]);
      var rest := Words(s[1..]);
      assert rest == [a[1..]] + Words(t);
      assert Words(s) == [[a[0]] + rest[0]] + rest[1..];
      assert a == [a[0]] + a[1..];
    }
  }

  /** `"w1 w2".split()` is `[w1, w2]`. */
  lemma WordsOfTwo(a: string, b: string)
    requires |a| > 0 && NoSpace(a) && |b| > 0 && NoSpace(b)
    ensures Words(a + " " + b) == [a, b]
  {
    WordsFirst(a, " " + b);
    assert a + " " + b == a + (" " + b);
    assert (" " + b)[1..] == b;
    WordsFirst(b, "");
    assert b + "" == b;
  }

  // ---------------------------------------------------------------- int()

  predicate IsDigits(s: string) {
    |s| > 0 && forall i :: 0 <= i < |s| ==> IsDigit(s[i])
  }

  function DigitsValue(s: string): nat
    requires forall i :: 0 <= i < |s| ==> IsDigit(s[i])
    decreases |s|
  {
    if |s| == 0 then 0
    else DigitsValue(s[..|s| - 1]) * 10 + DigitValue(s[|s| - 1])
  }

  function DigitValue(c: char): nat
    requires IsDigit(c)
  {
    c as int - '0' as int
  }

  function DigitChar(d: nat): char
    requires d < 10
  {
    ('0' as int + d) as char
  }

  /** Decimal rendering of a natural number, the partner of DigitsValue. */
  function ShowNat(n: nat): (s: string)
    ensures IsDigits(s)
    ensures DigitsValue(s) == n
    decreases n
  {
    if n < 10 then [DigitChar(n)]
    else
      var s := ShowNat(n / 10) + [DigitChar(n % 10)];
      assert s[..|s| - 1] == ShowNat(n / 10);
      s
  }

  function ShowInt(n: int): string {
    if n < 0 then "-" + ShowNat(-n) else ShowNat(n)
  }

  /** The whitespace `int()` skips around a literal: space and \t \n \v \f
      \r only. Unlike `str.strip`, it keeps the separators 0x1C..0x1F. */
  predicate IsIntSpace(c: char) {
    c == ' ' || 9 <= c as int <= 13
  }

  function IntLead(s: string): (n: nat)
    ensures n <= |s|
    ensures forall i :: 0 <= i < n ==> IsIntSpace(s[i])
    ensures n < |s| ==> !IsIntSpace(s[n])
    decreases |s|
  {
    if |s| > 0 && IsIntSpace(s[0]) then 1 + IntLead(s[1..]) else 0
  }

  function IntTrail(s: string): (n: nat)
    ensures n <= |s|
    ensures forall i :: |s| - n <= i < |s| ==> IsIntSpace(s[i])
    ensures n < |s| ==> !IsIntSpace(s[|s| - n - 1])
    decreases |s|
  {
    if |s| > 0 && IsIntSpace(s[|s| - 1]) then 1 + IntTrail(s[..|s| - 1]) else 0
  }

  /** The literal `int()` reads: `s` without the `int()` whitespace at
      either end. */
  function IntStrip(s: string): (t: string)
    ensures IntLead(s) + |t| <= |s|
    ensures t == s[IntLead(s)..IntLead(s) + |t|]
    ensures forall i :: IntLead(s) + |t| <= i < |s| ==> IsIntSpace(s[i])
    ensures |t| > 0 ==> !IsIntSpace(t[0]) && !IsIntSpace(t[|t| - 1])
    ensures |s| == 0 || (!IsIntSpace(s[0]) && !IsIntSpace(s[|s| - 1])) ==> t == s
  {
    var u := s[IntLead(s)..];
    u[..|u| - IntTrail(u)]
  }

  /** A decimal literal as `int()` accepts it: digits, where single
      underscores may separate digits (none first, last or doubled). */
  predicate IsDecimal(t: string) {
    && |t| > 0
    && IsDigit(t[0])
    && IsDigit(t[|t| - 1])
    && (forall i :: 0 <= i < |t| ==> IsDigit(t[i]) || t[i] == '_')
    && (forall i, j :: 0 <= i < |t| && j == i + 1 && j < |t| && t[i] == '_' ==> t[j] != '_')
  }

  /** The digits of a literal with its underscores dropped. */
  function DigitsOf(t: string): (d: string)
    ensures |d| <= |t|
    ensures (forall i :: 0 <= i < |t| ==> IsDigit(t[i]) || t[i] == '_') ==>
              forall i :: 0 <= i < |d| ==> IsDigit(d[i])
    ensures (forall i :: 0 <= i < |t| ==> t[i] != '_') ==> d == t
    decreases |t|
  {
    if |t| == 0 then ""
    else (if t[0] == '_' then "" else [t[0]]) + DigitsOf(t[1..])
  }

  function DecimalValue(t: string): nat
    requires IsDecimal(t)
  {
    DigitsValue(DigitsOf(t))
  }

  /** Python `int(s)` on ASCII: optional `int()` whitespace, an optional
      sign and a decimal literal; anything else is a ValueError (None). */
  function ParseInt(s: string): (r: Option<int>)
    ensures r.Some? <==>
      (var t := IntStrip(s);
       IsDecimal(t) || (|t| > 0 && (t[0] == '+' || t[0] == '-') && IsDecimal(t[1..])))
    ensures r.Some? && IsDecimal(IntStrip(s)) ==> r.value == DecimalValue(IntStrip(s))
    ensures r.Some? && !IsDecimal(IntStrip(s)) ==>
      var t := IntStrip(s);
      r.value == (if t[0] == '-' then 0 - DecimalValue(t[1..]) else DecimalValue(t[1..]))
  {
    var t := IntStrip(s);
    if |t| > 0 && (t[0] == '+' || t[0] == '-') then
      if IsDecimal(t[1..]) then
        var v: int := DecimalValue(t[1..]);
        Some(if t[0] == '-' then -v else v)
      else None
    else if IsDecimal(t) then Some(DecimalValue(t))
    else None
  }

  /** A plain digit string is a decimal literal with its ordinary value. */
  lemma DigitsAreDecimal(d: string)
    requires IsDigits(d)
    ensures IsDecimal(d) && DecimalValue(d) == DigitsValue(d)
  {
    assert DigitsOf(d) == d;
  }

  /** A digit string has no `int()` whitespace to strip. */
  lemma DigitsUnpadded(d: string)
    requires IsDigits(d)
    ensures IntStrip(d) == d
  {
    assert IsDigit(d[0]) && IsDigit(d[|d| - 1]);
  }

  /** An unsigned literal with nothing to strip parses to its value. */
  lemma ParseDecimal(t: string)
    requires IsDecimal(t) && IntStrip(t) == t
    ensures ParseInt(t) == Some(DecimalValue(t) as int)
  {
    assert t[0] != '+' && t[0] != '-';
  }

  /** A digit string parses to its value. */
  lemma ParseDigits(d: string)
    requires IsDigits(d)
    ensures ParseInt(d) == Some(DigitsValue(d) as int)
  {
    DigitsUnpadded(d);
    DigitsAreDecimal(d);
    ParseDecimal(d);
  }

  /** A minus sign before a literal ending in a digit leaves nothing to
      strip. */
  lemma SignedUnpadded(t: string)
    requires |t| > 1 && t[0] == '-' && IsDigit(t[|t| - 1])
    ensures IntStrip(t) == t
  {
  }

  /** A minus sign before a digit string negates its value. */
  lemma ParseNegDigits(t: string)
    requires |t| > 0 && t[0] == '-' && IsDigits(t[1..])
    ensures ParseInt(t) == Some(-(DigitsValue(t[1..]) as int))
  {
    var d := t[1..];
    assert d[|d| - 1] == t[|t| - 1];
    SignedUnpadded(t);
    DigitsAreDecimal(d);
  }

  /** int(str(n)) == n. */
  lemma ParseShowInt(n: int)
    ensures ParseInt(ShowInt(n)) == Some(n)
  {
    if n < 0 {
      var s := ShowInt(n);
      assert s[1..] == ShowNat(-n);
      ParseNegDigits(s);
    } else {
      ParseDigits(ShowNat(n));
    }
  }

  /** int(str(n)) == n for a non-negative n, whose rendering has no sign. */
  lemma ParseShowNat(n: nat)
    ensures ParseInt(ShowNat(n)) == Some(n)
    ensures '-' !in ShowNat(n)
  {
    ParseDigits(ShowNat(n));
    var d := ShowNat(n);
    assert forall i :: 0 <= i < |d| ==> IsDigit(d[i]);
  }
}
