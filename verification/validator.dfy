/** The address format check: `EMAIL_REGEX` and `is_valid_email_format` (birthday_mailer.py). */
module Validator {
  import opened PyStr

  /** The local part's character class `[a-z0-9!#$%&'*+/=?^_`{|}~-]`, matched ignoring case. */
  predicate IsLocalChar(c: char) {
    IsAlnum(c) || c in "!#$%&'*+/=?^_`{|}~-"
  }

  /** One dot-separated atom of the local part: `[...]+`. */
  predicate IsAtom(a: string) {
    |a| >= 1 && forall i :: 0 <= i < |a| ==> IsLocalChar(a[i])
  }

  /** One domain label, `[a-z0-9](?:[a-z0-9-]{0,61}[a-z0-9])?`: 1 to 63 characters, alphanumeric at both ends. */
  predicate IsLabel(l: string) {
    && 1 <= |l| <= 63
    && IsAlnum(l[0]) && IsAlnum(l[|l| - 1])
    && forall i :: 0 <= i < |l| ==> IsAlnum(l[i]) || l[i] == '-'
  }

  predicate IsDotAtoms(s: string) {
    var atoms := Split(s, '.');
    forall i :: 0 <= i < |atoms| ==> IsAtom(atoms[i])
  }

  predicate IsDomain(s: string) {
    var labels := Split(s, '.');
    forall i :: 0 <= i < |labels| ==> IsLabel(labels[i])
  }

  /**
   * The text the pattern accepts between `^` and its end: dot-separated atoms, one `@`,
   * dot-separated labels. Neither class holds `@`, so the `@` is the only one.
   */
  predicate MatchesAddress(e: string): (ok: bool)
    ensures ok ==> Count(e, '@') == 1 && Split(e, '@')[0] != [] && Split(e, '@')[1] != []
  {
    var parts := Split(e, '@');
    EmptyIsNotDotAtoms();
    assert !IsDomain("") by { assert Split("", '.')[0] == ""; }
    |parts| == 2 && IsDotAtoms(parts[0]) && IsDomain(parts[1])
  }

  /**
   * `EMAIL_REGEX.match(e)`: Python's `$` matches at the end and also just before a
   * final newline. Either way the text holds a single `@`.
   */
  predicate RegexMatch(e: string): (ok: bool)
    ensures ok ==> Count(e, '@') == 1
  {
    if e != [] && e[|e| - 1] == '\n' then
      NewlineExtendsDomain(e);
      MatchesAddress(e) || MatchesAddress(e[..|e| - 1])
    else MatchesAddress(e)
  }

  /** `is_valid_email_format`: the quick checks, then the pattern. */
  function IsValidEmailFormat(e: string): (ok: bool)
    ensures ok ==> Count(e, '@') == 1
    ensures ok ==> var parts := Split(e, '@'); parts[0] != [] && parts[1] != [] && '.' in parts[1]
  {
    if e == [] || '@' !in e then false
    else if Count(e, '@') != 1 then false
    else
      // `rsplit('@', 1)` of a text with a single `@`
      var parts := Split(e, '@');
      var local, domain := parts[0], parts[1];
      if local == [] || domain == [] then false
      else if '.' !in domain then false
      else RegexMatch(e)
  }

  /** An address in the accepted form: the pattern, with a dot in the domain. */
  predicate WellFormed(e: string) {
    MatchesAddress(e) && '.' in Split(e, '@')[1]
  }

  lemma EmptyIsNotDotAtoms()
    ensures !IsDotAtoms("")
  {
    assert Split("", '.')[0] == "";
  }

  /**
   * The validator accepts exactly the well-formed addresses, and those followed
   * by a single newline.
   */
  lemma {:induction false} ValidIffWellFormed(e: string)
    ensures IsValidEmailFormat(e) <==>
      WellFormed(e) || (e != [] && e[|e| - 1] == '\n' && WellFormed(e[..|e| - 1]))
  {
    if WellFormed(e) {
      EmptyIsNotDotAtoms();
    } else if e != [] && e[|e| - 1] == '\n' && WellFormed(e[..|e| - 1]) {
      NewlineExtendsDomain(e);
      EmptyIsNotDotAtoms();
    } else if IsValidEmailFormat(e) && !MatchesAddress(e) {
      NewlineExtendsDomain(e);
    }
  }

  /** A final newline only lengthens the domain, and leaves the count of `@` alone. */
  lemma NewlineExtendsDomain(e: string)
    requires e != [] && e[|e| - 1] == '\n'
    ensures var f := e[..|e| - 1];
      && Count(e, '@') == Count(f, '@')
      && var p, q := Split(e, '@'), Split(f, '@');
         p[..|p| - 1] == q[..|q| - 1] && p[|p| - 1] == q[|q| - 1] + "\n"
  {
    var f := e[..|e| - 1];
    assert e == f + "\n";
    SplitAppendTail(f, "\n", '@');
    CountAppend(f, "\n", '@');
  }

  /** Whatever the validator accepts without a final newline is built from the pattern's pieces. */
  lemma ValidAddressParts(e: string)
    requires IsValidEmailFormat(e)
    requires e[|e| - 1] != '\n'
    ensures var parts := Split(e, '@');
      && |parts| == 2
      && (forall i :: 0 <= i < |Split(parts[0], '.')| ==> IsAtom(Split(parts[0], '.')[i]))
      && (forall i :: 0 <= i < |Split(parts[1], '.')| ==> IsLabel(Split(parts[1], '.')[i]))
      && |Split(parts[1], '.')| >= 2
  {
    ValidIffWellFormed(e);
  }
}
