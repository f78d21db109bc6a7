/** The email normaliser, `clean_email_raw` (birthday_mailer.py). */
module Normalizer {
  import opened Wrappers
  import opened PyStr

  /** `None` stays `None`; any text is cleaned, and comes out lower-case and printable. */
  function CleanEmailRaw(value: Option<string>): (r: Option<string>)
    ensures r.None? <==> value.None?
    ensures r.Some? ==> forall c :: c in r.value ==> IsPrintable(c) && !IsUpper(c)
  {
    match value
    case None => None
    case Some(s) =>
      CleanTextShape(s);
      Some(CleanText(s))
  }

  /** Title-cases, strips, lower-cases and then drops the non-printable characters. */
  function CleanText(s: string): (r: string)
    ensures |r| <= |s|
  {
    KeepPrintable(Lower(Strip(Title(s))))
  }

  /** Cleaned text holds printable characters only, and no upper-case letter. */
  lemma CleanTextShape(s: string)
    ensures forall c :: c in CleanText(s) ==> IsPrintable(c) && !IsUpper(c)
  {
    var l := Lower(Strip(Title(s)));
    assert forall i :: 0 <= i < |l| ==> !IsUpper(l[i]);
  }

  /**
   * Over ASCII, title-casing before lower-casing changes nothing: the result is the
   * stripped input, lower-cased, with the non-printable characters removed.
   */
  lemma CleanIsLowerStrip(s: string)
    ensures CleanText(s) == KeepPrintable(Lower(Strip(s)))
  {
    LowerStrip(Title(s));
    LowerTitle(s);
    LowerStrip(s);
  }

  /**
   * Stripping happens before the filter, so the result is not always trimmed:
   * a leading control character shields the space after it, and cleaning the
   * result once more removes that space (as for "\0 a", which cleans to " a").
   */
  lemma ControlCharShieldsSpace(c: char, x: string)
    requires !IsPrintable(c) && !IsSpace(c)
    requires x != [] && !IsSpace(x[0]) && !IsSpace(x[|x| - 1])
    requires forall ch :: ch in x ==> IsPrintable(ch) && !IsUpper(ch)
    ensures CleanText([c, ' '] + x) == " " + x
    ensures CleanText(" " + x) == x
  {
    ShieldedSpaceKept(c, x);
    CleanIsLowerStrip([c, ' '] + x);
    ShieldedSpaceDropped(x);
    CleanIsLowerStrip(" " + x);
  }

  lemma ShieldedSpaceKept(c: char, x: string)
    requires !IsPrintable(c) && !IsSpace(c)
    requires x != [] && !IsSpace(x[|x| - 1])
    requires forall ch :: ch in x ==> IsPrintable(ch) && !IsUpper(ch)
    ensures KeepPrintable(Lower(Strip([c, ' '] + x))) == " " + x
  {
    var s := [c, ' '] + x;
    assert s[|s| - 1] == x[|x| - 1];
    StripTrimmed(s);
    ShieldedLower(c, x);
    ShieldedPrintable(c, x);
  }

  lemma ShieldedLower(c: char, x: string)
    requires !IsPrintable(c)
    requires forall ch :: ch in x ==> !IsUpper(ch)
    ensures Lower([c, ' '] + x) == [c, ' '] + x
  {
    var s := [c, ' '] + x;
    forall i | 0 <= i < |s| ensures !IsUpper(s[i]) {
      if i >= 2 { assert s[i] == x[i - 2]; }
    }
    LowerNoUpper(s);
  }

  lemma ShieldedPrintable(c: char, x: string)
    requires !IsPrintable(c)
    requires forall ch :: ch in x ==> IsPrintable(ch)
    ensures KeepPrintable([c, ' '] + x) == " " + x
  {
    var s := [c, ' '] + x;
    assert s[1..] == " " + x && (" " + x)[1..] == x;
    assert KeepPrintable(x) == x;
  }

  lemma ShieldedSpaceDropped(x: string)
    requires x != [] && !IsSpace(x[0]) && !IsSpace(x[|x| - 1])
    requires forall ch :: ch in x ==> !IsUpper(ch) && IsPrintable(ch)
    ensures KeepPrintable(Lower(Strip(" " + x))) == x
  {
    assert (" " + x)[1..] == x;
    assert LStrip(" " + x) == x;
    StripTrimmed(x);
    LowerNoUpper(x);
  }

  /** Cleaning a cleaned address only strips it again. */
  lemma CleanOfClean(s: string)
    ensures CleanText(CleanText(s)) == Strip(CleanText(s))
  {
    var r := CleanText(s);
    CleanTextShape(s);
    CleanIsLowerStrip(r);
    StripKeepsClean(r);
  }

  /** Stripping printable text without upper-case letters leaves nothing for the other steps to do. */
  lemma StripKeepsClean(r: string)
    requires forall c :: c in r ==> IsPrintable(c) && !IsUpper(c)
    ensures KeepPrintable(Lower(Strip(r))) == Strip(r)
  {
    var t := Strip(r);
    var k: nat :| TrimmedAt(r, t, k);
    forall i | 0 <= i < |t| ensures IsPrintable(t[i]) && !IsUpper(t[i]) {
      assert t[i] == r[k + i];
    }
    LowerNoUpper(t);
  }
}
