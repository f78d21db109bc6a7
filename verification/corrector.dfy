/** The best-effort repair of a rejected address, `attempt_email_correction` (birthday_mailer.py). */
module Corrector {
  import opened Wrappers
  import opened PyStr
  import opened Validator

  /**
   * With more than one `@`, the parts before the last `@` are joined back with `@`,
   * then `@` and the last part are added. That rebuilds the input exactly, so the
   * branch for several `@` is the identity.
   */
  function RejoinAtParts(email: string): (r: string)
    ensures r == email
  {
    var parts := Split(email, '@');
    if |parts| > 2 then
      JoinSnoc(parts, '@');
      JoinSplit(email, '@');
      Join(parts[..|parts| - 1], '@') + "@" + parts[|parts| - 1]
    else email
  }

  /** The chain of `replace` calls for common typos: it removes every space and keeps every `@`. */
  function FixTypos(s: string): (r: string)
    ensures ' ' !in r
    ensures Count(r, '@') == Count(s, '@')
  {
    var s1 := Replace(s, ",com", ".com");
    var s2 := Replace(s1, " ", "");
    var s3 := Replace(s2, ".com.", ".com");
    ReplaceDeletes(s1, ' ');
    ReplaceCount(s, ",com", ".com", '@');
    ReplaceCount(s1, " ", "", '@');
    ReplaceCount(s2, ".com.", ".com", '@');
    ReplaceCount(s3, ", ", ",", '@');
    Replace(s3, ", ", ",")
  }

  /** The characters `rstrip(',. ')` removes from the end. */
  const TrailingJunk: set<char> := {',', '.', ' '}

  /** The rewritten address, before it is compared with the input: it never ends in a comma, dot or space. */
  function Rewrite(email: string): (r: string)
    ensures r == [] || r[|r| - 1] !in TrailingJunk
  {
    var c := RStripChars(FixTypos(RejoinAtParts(email)), TrailingJunk);
    if '@' in c && '.' !in Split(c, '@')[1] then
      var r := c + ".com";
      assert r[|r| - 1] == 'm';
      r
    else c
  }

  /**
   * `attempt_email_correction`: `None` for the empty text, and `None` again when the
   * rewriting changes nothing, so a correction always differs from its input.
   */
  function AttemptEmailCorrection(email: string): (r: Option<string>)
    ensures email == [] ==> r == None
    ensures r.Some? ==> r.value != email
  {
    if email == [] then None
    else
      var c := Rewrite(email);
      if c != email then Some(c) else None
  }

  /** No step of the rewriting adds or removes an `@`. */
  lemma {:induction false} RewriteKeepsAtCount(email: string)
    ensures Count(Rewrite(email), '@') == Count(email, '@')
  {
    var s4 := FixTypos(RejoinAtParts(email));
    RStripCharsCount(s4, TrailingJunk, '@');
    var c := RStripChars(s4, TrailingJunk);
    CountAppend(c, ".com", '@');
  }

  /** A correction has as many `@` as its input. */
  lemma CorrectionKeepsAtCount(email: string)
    ensures var r := AttemptEmailCorrection(email);
      r.Some? ==> Count(r.value, '@') == Count(email, '@')
  {
    RewriteKeepsAtCount(email);
  }

  /** An input with two or more `@` is never corrected into a valid address. */
  lemma MultipleAtNeverValid(email: string)
    requires Count(email, '@') >= 2
    ensures var r := AttemptEmailCorrection(email);
      r.None? || !IsValidEmailFormat(r.value)
  {
    RewriteKeepsAtCount(email);
  }

  /**
   * A correction holds no space and does not end in a comma, dot or space; when it
   * holds a single `@`, the part after it holds a dot.
   */
  lemma CorrectionShape(email: string)
    ensures var r := AttemptEmailCorrection(email);
      r.Some? ==>
        && ' ' !in r.value
        && (r.value != [] ==> r.value[|r.value| - 1] !in TrailingJunk)
        && (Count(r.value, '@') == 1 ==> '.' in Split(r.value, '@')[1])
  {
    RewriteHasNoSpace(email);
    RewriteDomainHasDot(email);
  }

  /** The rewriting removes every space. */
  lemma {:induction false} RewriteHasNoSpace(email: string)
    ensures ' ' !in Rewrite(email)
  {
    var s4 := FixTypos(RejoinAtParts(email));
    var c := RStripChars(s4, TrailingJunk);
    assert ' ' !in c by {
      forall i | 0 <= i < |c| ensures c[i] != ' ' {
        assert c[i] == s4[i];
      }
    }
  }

  /** With a single `@`, the rewriting leaves a dot after it. */
  lemma {:induction false} RewriteDomainHasDot(email: string)
    ensures var r := Rewrite(email); Count(r, '@') == 1 ==> '.' in Split(r, '@')[1]
  {
    var c := RStripChars(FixTypos(RejoinAtParts(email)), TrailingJunk);
    if '@' in c && '.' !in Split(c, '@')[1] {
      CountAppend(c, ".com", '@');
      SplitAppendTail(c, ".com", '@');
      var p := Split(c, '@');
      if Count(c, '@') == 1 {
        assert Split(c + ".com", '@')[1] == p[1] + ".com";
        assert (p[1] + ".com")[|p[1]|] == '.';
      }
    }
  }

  /** The typo rules leave alone a text holding no comma, space or dot. */
  lemma FixTyposNoop(x: string)
    requires ',' !in x && ' ' !in x && '.' !in x
    ensures FixTypos(x) == x
  {
    NoCharNoOccurrence(x, ",com", ',');
    ReplaceAbsent(x, ",com", ".com");
    NoCharNoOccurrence(x, " ", ' ');
    ReplaceAbsent(x, " ", "");
    NoCharNoOccurrence(x, ".com.", '.');
    ReplaceAbsent(x, ".com.", ".com");
    NoCharNoOccurrence(x, ", ", ',');
    ReplaceAbsent(x, ", ", ",");
  }

  /**
   * The `,com` rule: a comma typed for the dot before `com` becomes that dot, and the
   * later rules leave the result alone.
   */
  lemma CommaComRule(a: string, t: string)
    requires ',' !in a && ' ' !in a && '.' !in a
    requires ',' !in t && ' ' !in t && '.' !in t
    ensures FixTypos(a + ",com" + t) == a + ".com" + t
  {
    var s1 := a + ".com" + t;
    ReplaceOnce(a, ",com", t, ".com", ',');
    NoCharNoOccurrence(s1, " ", ' ');
    ReplaceAbsent(s1, " ", "");
    OnlyDotAt(a, t);
    ReplaceAbsent(s1, ".com.", ".com");
    NoCharNoOccurrence(s1, ", ", ',');
    ReplaceAbsent(s1, ", ", ",");
  }

  /** The only dot of `a + ".com" + t` is followed by `com` and no dot, so `.com.` occurs nowhere in it. */
  lemma OnlyDotAt(a: string, t: string)
    requires '.' !in a && '.' !in t
    ensures forall i :: !OccursAt(a + ".com" + t, ".com.", i)
  {
    var s1 := a + ".com" + t;
    forall i ensures !OccursAt(s1, ".com.", i) {
      if 0 <= i && i + 5 <= |s1| {
        assert s1[i..i + 5][0] == s1[i] && s1[i..i + 5][4] == s1[i + 4];
        if i < |a| {
          assert s1[i] == a[i];
        } else if i > |a| + 3 {
          assert s1[i] == t[i - |a| - 4];
        } else if i == |a| {
          assert s1[i + 4] == t[0];
        }
      }
    }
  }

  /**
   * A domain without a dot is completed with `.com`: an address with a single `@`
   * and no comma, space or dot is corrected by appending `.com` (so `c@d` becomes
   * `c@d.com`).
   */
  lemma CompletesDomain(x: string)
    requires Count(x, '@') == 1
    requires ',' !in x && ' ' !in x && '.' !in x
    ensures AttemptEmailCorrection(x) == Some(x + ".com")
  {
    FixTyposNoop(x);
    StripNoop(x);
    DomainLacks(x, '.');
    assert |x + ".com"| != |x|;
  }

  lemma StripNoop(x: string)
    requires x != [] && ',' !in x && ' ' !in x && '.' !in x
    ensures RStripChars(x, TrailingJunk) == x
  {
    assert x[|x| - 1] in x;
  }

  /** A character missing from a text with a single `@` is missing from the part after it. */
  lemma DomainLacks(x: string, ch: char)
    requires Count(x, '@') == 1 && ch !in x
    ensures ch !in Split(x, '@')[1]
  {
    var p := Split(x, '@');
    JoinSplit(x, '@');
    JoinSnoc(p, '@');
    assert x == Join(p[..1], '@') + ['@'] + p[1];
    assert forall i :: 0 <= i < |p[1]| ==> p[1][i] == x[|x| - |p[1]| + i];
  }

  /** Letters and digits only. */
  predicate Alnums(s: string) {
    forall i :: 0 <= i < |s| ==> IsAlnum(s[i])
  }

  lemma AlnumsLackPunctuation(s: string)
    requires Alnums(s)
    ensures ',' !in s && ' ' !in s && '.' !in s && '@' !in s
  {
    forall i | 0 <= i < |s| ensures s[i] !in ", .@" {
      assert IsAlnum(s[i]);
    }
  }

  /**
   * The `.com.` rule also fires inside a longer domain: a rejected piece such as
   * `john @example.com.au` is corrected to `john@example.comau`, which the format
   * check accepts although it is not the address that was meant.
   */
  lemma DotComDotJoinsLabels(a: string, b: string, c: string)
    requires a != [] && b != [] && c != [] && Alnums(a) && Alnums(b) && Alnums(c)
    requires |b| <= 63 && |c| <= 60
    ensures var e, r := a + " @" + b + ".com." + c, a + "@" + b + ".com" + c;
      && !IsValidEmailFormat(e)
      && AttemptEmailCorrection(e) == Some(r)
      && IsValidEmailFormat(r)
  {
    AlnumsLackPunctuation(a);
    AlnumsLackPunctuation(b);
    AlnumsLackPunctuation(c);
    SpaceAfterLocalRegroup(a, b, c);
    SpaceBeforeAtInvalid(a, b + ".com." + c, c[|c| - 1]);
    DotComDotRewrite(a, b, c);
    JoinedLabelsValid(a, b, c);
  }

  /** The piece with a space, read as the text after `a + " "`. */
  lemma SpaceAfterLocalRegroup(a: string, b: string, c: string)
    ensures a + " @" + b + ".com." + c == (a + " ") + ("@" + b + ".com." + c)
    ensures a + " @" + b + ".com." + c == (a + " ") + "@" + (b + ".com." + c)
    ensures a + "@" + b + ".com." + c == a + ("@" + b + ".com." + c)
  {
    AppendAssoc(a, " ", "@");
    assert " " + "@" == " @";
    Regroup5(a + " ", "@", b, ".com.", c);
    Regroup4("@", b, ".com.", c);
    AppendAssoc(a + " ", "@", b + ".com." + c);
    Regroup5(a, "@", b, ".com.", c);
  }

  /** The typo rules turn the piece with a space into the address with `.com` joined to the last label. */
  lemma DotComDotRewrite(a: string, b: string, c: string)
    requires a != [] && b != [] && c != []
    requires ',' !in a && ' ' !in a && '.' !in a && '@' !in a
    requires ',' !in b && ' ' !in b && '.' !in b && '@' !in b
    requires ',' !in c && ' ' !in c && '.' !in c && '@' !in c
    ensures Rewrite(a + " @" + b + ".com." + c) == a + "@" + b + ".com" + c
  {
    SpaceAfterLocalRegroup(a, b, c);
    var e := a + " @" + b + ".com." + c;
    var t := "@" + b + ".com." + c;
    var r := a + "@" + b + ".com" + c;
    NoCharNoOccurrence(e, ",com", ',');
    ReplaceAbsent(e, ",com", ".com");
    ReplaceOnce(a, " ", t, "", ' ');
    assert a + "" == a;
    ReplaceOnce(a + "@" + b, ".com.", c, ".com", '.');
    NoCharNoOccurrence(r, ", ", ',');
    ReplaceAbsent(r, ", ", ",");
    assert FixTypos(RejoinAtParts(e)) == r;
    DomainAfterAt(a, b, c);
  }

  /** The rewritten address is left alone by the final strip and the `.com` check. */
  lemma DomainAfterAt(a: string, b: string, c: string)
    requires c != [] && ',' !in c && ' ' !in c && '.' !in c
    requires '@' !in a && '@' !in b && '@' !in c
    ensures var r := a + "@" + b + ".com" + c;
      && RStripChars(r, TrailingJunk) == r
      && Split(r, '@') == [a, b + ".com" + c]
      && '.' in Split(r, '@')[1]
  {
    var r := a + "@" + b + ".com" + c;
    assert r[|r| - 1] == c[|c| - 1];
    Regroup4(a + "@", b, ".com", c);
    SplitOnce(a, b + ".com" + c, '@');
    assert (b + ".com" + c)[|b|] == '.';
  }

  /** A space at the end of the local part fails the pattern. */
  lemma SpaceBeforeAtInvalid(a: string, d: string, last: char)
    requires a != [] && '@' !in a && '.' !in a && '@' !in d
    requires d != [] && d[|d| - 1] == last && last != '\n'
    ensures !IsValidEmailFormat((a + " ") + "@" + d)
  {
    var e := (a + " ") + "@" + d;
    SplitOnce(a + " ", d, '@');
    SplitNoSeparator(a + " ", '.');
    assert (a + " ")[|a|] == ' ';
    assert !IsAtom(a + " ");
    assert e[|e| - 1] == last;
  }

  /** The corrected address passes the format check. */
  lemma JoinedLabelsValid(a: string, b: string, c: string)
    requires a != [] && b != [] && c != [] && Alnums(a) && Alnums(b) && Alnums(c)
    requires |b| <= 63 && |c| <= 60
    ensures IsValidEmailFormat(a + "@" + b + ".com" + c)
  {
    AlnumsLackPunctuation(a);
    AlnumsLackPunctuation(b);
    AlnumsLackPunctuation(c);
    var d := b + ".com" + c;
    var r := a + "@" + d;
    DomainAfterAt(a, b, c);
    Regroup4(a + "@", b, ".com", c);
    SplitNoSeparator(a, '.');
    assert IsAtom(a);
    LabelsOfDomain(b, c);
    assert MatchesAddress(r);
    assert r[|r| - 1] == c[|c| - 1];
  }

  lemma LabelsOfDomain(b: string, c: string)
    requires b != [] && c != [] && Alnums(b) && Alnums(c)
    requires |b| <= 63 && |c| <= 60
    ensures IsDomain(b + ".com" + c)
  {
    AlnumsLackPunctuation(b);
    AlnumsLackPunctuation(c);
    var l := "com" + c;
    AppendAssoc(b, ".", "com");
    assert "." + "com" == ".com";
    AppendAssoc(b + ".", "com", c);
    assert b + ".com" + c == b + ['.'] + l;
    SplitOnce(b, l, '.');
    assert IsLabel(b);
    assert IsLabel(l) by {
      forall i | 0 <= i < |l| ensures IsAlnum(l[i]) {
        if i >= 3 { assert l[i] == c[i - 3]; }
      }
    }
  }
}
