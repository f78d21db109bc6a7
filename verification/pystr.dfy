/**
 * The Python `str` operations the mailer builds on, over ASCII text.
 * A character outside ASCII is neither a letter, nor whitespace, nor printable.
 */
module PyStr {

  predicate IsUpper(c: char) { 'A' <= c <= 'Z' }
  predicate IsLower(c: char) { 'a' <= c <= 'z' }
  predicate IsLetter(c: char) { IsUpper(c) || IsLower(c) }
  predicate IsDigit(c: char) { '0' <= c <= '9' }
  predicate IsAlnum(c: char) { IsLetter(c) || IsDigit(c) }

  /** `str.isspace()` over ASCII: tab, LF, VT, FF, CR, the separators 0x1C-0x1F and space. */
  predicate IsSpace(c: char) {
    c == ' ' || 0x09 <= c as int <= 0x0D || 0x1C <= c as int <= 0x1F
  }

  /** `str.isprintable()` over ASCII: 0x20 (space) up to 0x7E (tilde). */
  predicate IsPrintable(c: char) { 0x20 <= c as int <= 0x7E }

  function LowerChar(c: char): char { if IsUpper(c) then (c as int + 32) as char else c }
  function UpperChar(c: char): char { if IsLower(c) then (c as int - 32) as char else c }

  /** `str.lower()`: no upper-case letter is left, and every other character stays where it was. */
  function Lower(s: string): (r: string)
    ensures |r| == |s|
    ensures forall i :: 0 <= i < |r| ==> !IsUpper(r[i])
    ensures forall i :: 0 <= i < |s| && !IsUpper(s[i]) ==> r[i] == s[i]
    ensures forall i :: 0 <= i < |s| ==> UpperChar(r[i]) == UpperChar(s[i])
  {
    seq(|s|, i requires 0 <= i < |s| => LowerChar(s[i]))
  }

  /**
   * `str.title()`: a letter that follows a letter is lower-cased, any other letter
   * is upper-cased. It changes only the case of letters.
   */
  function Title(s: string): (r: string)
    ensures |r| == |s|
  {
    TitleFrom(true, s)
  }

  /** Title-cases `s`, where `wordStart` says whether the character before it was not a letter. */
  function TitleFrom(wordStart: bool, s: string): (r: string)
    ensures |r| == |s|
    decreases s
  {
    if s == [] then [] else [TitleChar(wordStart, s[0])] + TitleFrom(!IsLetter(s[0]), s[1..])
  }

  function TitleChar(wordStart: bool, c: char): char {
    if IsLetter(c) && wordStart then UpperChar(c) else LowerChar(c)
  }

  /** Title-casing changes letters' case only: white space stays where it was. */
  lemma {:induction false} TitleCaseOnly(wordStart: bool, s: string)
    ensures forall i :: 0 <= i < |s| ==>
      LowerChar(TitleFrom(wordStart, s)[i]) == LowerChar(s[i])
      && IsSpace(TitleFrom(wordStart, s)[i]) == IsSpace(s[i])
    decreases s
  {
    if s != [] {
      TitleCaseOnly(!IsLetter(s[0]), s[1..]);
      var r := TitleFrom(wordStart, s);
      assert forall i :: 1 <= i < |s| ==> r[i] == TitleFrom(!IsLetter(s[0]), s[1..])[i - 1];
    }
  }

  /** `str.lstrip()`: drops the leading whitespace and nothing else. */
  function LStrip(s: string): (r: string)
    ensures |r| <= |s| && r == s[|s| - |r|..]
    ensures r == [] || !IsSpace(r[0])
    ensures forall i :: 0 <= i < |s| - |r| ==> IsSpace(s[i])
  {
    if s != [] && IsSpace(s[0]) then
      var r := LStrip(s[1..]);
      assert s[1..][|s| - 1 - |r|..] == s[|s| - |r|..];
      r
    else s
  }

  /** `str.rstrip()`: drops the trailing whitespace and nothing else. */
  function RStrip(s: string): (r: string)
    ensures |r| <= |s| && r == s[..|r|]
    ensures r == [] || !IsSpace(r[|r| - 1])
    ensures forall i :: |r| <= i < |s| ==> IsSpace(s[i])
  {
    if s != [] && IsSpace(s[|s| - 1]) then
      var r := RStrip(s[..|s| - 1]);
      assert s[..|s| - 1][..|r|] == s[..|r|];
      r
    else s
  }

  /** `r` is the run of `s` that starts at `k`, with only whitespace before and after it. */
  predicate TrimmedAt(s: string, r: string, k: nat) {
    && k + |r| <= |s| && r == s[k..k + |r|]
    && (forall i :: 0 <= i < k ==> IsSpace(s[i]))
    && (forall i :: k + |r| <= i < |s| ==> IsSpace(s[i]))
  }

  /**
   * `str.strip()`: the result is a run of the input that neither starts nor ends
   * with whitespace, and only whitespace lies outside it.
   */
  function Strip(s: string): (r: string)
    ensures r == [] || (!IsSpace(r[0]) && !IsSpace(r[|r| - 1]))
    ensures exists k: nat :: TrimmedAt(s, r, k)
  {
    LStripThenRStrip(s);
    RStrip(LStrip(s))
  }

  lemma LStripThenRStrip(s: string)
    ensures TrimmedAt(s, RStrip(LStrip(s)), |s| - |LStrip(s)|)
  {
    TrimmedTwice(s, LStrip(s), RStrip(LStrip(s)));
  }

  /** A prefix `r` of a suffix `l` of `s`, with whitespace cut off on both sides, is a trimmed run of `s`. */
  lemma TrimmedTwice(s: string, l: string, r: string)
    requires |l| <= |s| && l == s[|s| - |l|..] && forall i :: 0 <= i < |s| - |l| ==> IsSpace(s[i])
    requires |r| <= |l| && r == l[..|r|] && forall i :: |r| <= i < |l| ==> IsSpace(l[i])
    ensures TrimmedAt(s, r, |s| - |l|)
  {
    var k := |s| - |l|;
    forall i | k + |r| <= i < |s| ensures IsSpace(s[i]) {
      assert s[i] == l[i - k];
    }
  }

  /** `str.rstrip(chars)`: drops the trailing characters that belong to `chars`. */
  function RStripChars(s: string, chars: set<char>): (r: string)
    ensures |r| <= |s| && r == s[..|r|]
    ensures r == [] || r[|r| - 1] !in chars
    ensures forall i :: |r| <= i < |s| ==> s[i] in chars
  {
    if s != [] && s[|s| - 1] in chars then
      var r := RStripChars(s[..|s| - 1], chars);
      assert s[..|s| - 1][..|r|] == s[..|r|];
      r
    else s
  }

  /** `''.join(ch for ch in s if ch.isprintable())` */
  function KeepPrintable(s: string): (r: string)
    ensures |r| <= |s|
    ensures forall c :: c in r <==> c in s && IsPrintable(c)
    ensures (forall c :: c in s ==> IsPrintable(c)) ==> r == s
    ensures |s| == 1 ==> r == if IsPrintable(s[0]) then s else []
  {
    if s == [] then [] else (if IsPrintable(s[0]) then [s[0]] else []) + KeepPrintable(s[1..])
  }

  /** `str.count(c)` for a single character. */
  function Count(s: string, c: char): (n: nat)
    ensures n <= |s|
    ensures n == 0 <==> c !in s
  {
    if s == [] then 0 else (if s[0] == c then 1 else 0) + Count(s[1..], c)
  }

  /** `str.split(sep)` for a single-character separator: one more part than separators. */
  function Split(s: string, sep: char): (parts: seq<string>)
    ensures |parts| == Count(s, sep) + 1
    ensures forall i :: 0 <= i < |parts| ==> sep !in parts[i]
  {
    if s == [] then [""]
    else
      var rest := Split(s[1..], sep);
      if s[0] == sep then [""] + rest else [[s[0]] + rest[0]] + rest[1..]
  }

  /** `sep.join(parts)`: parts free of the separator are joined by one separator each. */
  function Join(parts: seq<string>, sep: char): (r: string)
    ensures (|parts| > 0 && forall i :: 0 <= i < |parts| ==> sep !in parts[i]) ==> Count(r, sep) == |parts| - 1
  {
    if |parts| == 0 then ""
    else if |parts| == 1 then parts[0]
    else
      var rest := Join(parts[1..], sep);
      CountAppend(parts[0] + [sep], rest, sep);
      CountAppend(parts[0], [sep], sep);
      parts[0] + [sep] + rest
  }

  /**
   * `s.replace(pat, sub)`: left to right, non-overlapping occurrences of a non-empty
   * `pat`. It brings in no character that is neither in the text nor in `sub`.
   */
  function Replace(s: string, pat: string, sub: string): (r: string)
    requires |pat| > 0
    ensures forall c :: c in r ==> c in s || c in sub
    decreases |s|
  {
    if |s| < |pat| then s
    else if s[..|pat|] == pat then sub + Replace(s[|pat|..], pat, sub)
    else [s[0]] + Replace(s[1..], pat, sub)
  }

  lemma {:induction false} CountAppend(a: string, b: string, c: char)
    ensures Count(a + b, c) == Count(a, c) + Count(b, c)
  {
    if a != [] {
      assert (a + b)[1..] == a[1..] + b;
      CountAppend(a[1..], b, c);
    } else {
      assert a + b == b;
    }
  }

  /** Splitting and re-joining on the same separator gives back the string. */
  lemma {:induction false} JoinSplit(s: string, sep: char)
    ensures Join(Split(s, sep), sep) == s
  {
    if s != [] {
      var rest := Split(s[1..], sep);
      JoinSplit(s[1..], sep);
      if s[0] == sep {
        assert ([""] + rest)[1..] == rest;
      } else if |rest| > 1 {
        var parts := [[s[0]] + rest[0]] + rest[1..];
        assert parts[1..] == rest[1..];
      }
    }
  }

  /** Joining all but the last part, then the separator and the last part, is joining them all. */
  lemma {:induction false} JoinSnoc(parts: seq<string>, sep: char)
    requires |parts| >= 2
    ensures Join(parts[..|parts| - 1], sep) + [sep] + parts[|parts| - 1] == Join(parts, sep)
  {
    if |parts| > 2 {
      JoinSnoc(parts[1..], sep);
      assert parts[1..][..|parts| - 2] == parts[..|parts| - 1][1..];
    }
  }

  /** `p` with `t` appended to its last part. */
  function ExtendLast(p: seq<string>, t: string): seq<string>
    requires p != []
  {
    p[..|p| - 1] + [p[|p| - 1] + t]
  }

  lemma PrependExtendLast(x: string, p: seq<string>, t: string)
    requires p != []
    ensures ExtendLast([x] + p, t) == [x] + ExtendLast(p, t)
  {
    assert ([x] + p)[..|p|] == [x] + p[..|p| - 1];
  }

  /** Text without the separator extends the last part of a split. */
  lemma {:induction false} SplitAppendTail(s: string, t: string, sep: char)
    requires sep !in t
    ensures Split(s + t, sep) == ExtendLast(Split(s, sep), t)
  {
    if s == [] {
      JoinSplit(t, sep);
      assert s + t == t;
    } else {
      assert (s + t)[1..] == s[1..] + t;
      SplitAppendTail(s[1..], t, sep);
      var p' := Split(s[1..], sep);
      if s[0] == sep {
        PrependExtendLast("", p', t);
      } else if |p'| == 1 {
        assert [s[0]] + (p'[0] + t) == ([s[0]] + p'[0]) + t;
      } else {
        assert p' == [p'[0]] + p'[1..];
        PrependExtendLast(p'[0], p'[1..], t);
        PrependExtendLast([s[0]] + p'[0], p'[1..], t);
      }
    }
  }

  /** Replacing text free of `c` by text free of `c` keeps the number of `c`s. */
  lemma {:induction false} ReplaceCount(s: string, pat: string, sub: string, c: char)
    requires |pat| > 0 && c !in pat && c !in sub
    ensures Count(Replace(s, pat, sub), c) == Count(s, c)
    decreases |s|
  {
    if |s| >= |pat| {
      if s[..|pat|] == pat {
        ReplaceCount(s[|pat|..], pat, sub, c);
        CountAppend(sub, Replace(s[|pat|..], pat, sub), c);
        CountAppend(s[..|pat|], s[|pat|..], c);
        assert s == s[..|pat|] + s[|pat|..];
      } else {
        ReplaceCount(s[1..], pat, sub, c);
        CountAppend([s[0]], Replace(s[1..], pat, sub), c);
        CountAppend([s[0]], s[1..], c);
        assert s == [s[0]] + s[1..];
      }
    }
  }

  /** `pat` occurs in `s` at position `i`. */
  predicate OccursAt(s: string, pat: string, i: int) {
    0 <= i && i + |pat| <= |s| && s[i..i + |pat|] == pat
  }

  /** Text in which the pattern never occurs is left as it is. */
  lemma {:induction false} ReplaceAbsent(s: string, pat: string, sub: string)
    requires |pat| > 0
    requires forall i :: !OccursAt(s, pat, i)
    ensures Replace(s, pat, sub) == s
    decreases |s|
  {
    if |s| >= |pat| {
      assert !OccursAt(s, pat, 0);
      forall i ensures !OccursAt(s[1..], pat, i) {
        if OccursAt(s[1..], pat, i) {
          assert s[1..][i..i + |pat|] == s[i + 1..i + 1 + |pat|];
          assert OccursAt(s, pat, i + 1);
        }
      }
      ReplaceAbsent(s[1..], pat, sub);
      assert [s[0]] + s[1..] == s;
    }
  }

  /**
   * The first occurrence is replaced and the scan goes on after it: text before
   * the first occurrence is kept, the occurrence becomes `sub`, and the rest is
   * replaced in turn.
   */
  lemma {:induction false} ReplaceFirst(a: string, pat: string, t: string, sub: string)
    requires |pat| > 0
    requires forall i :: 0 <= i < |a| ==> !OccursAt(a + pat + t, pat, i)
    ensures Replace(a + pat + t, pat, sub) == a + sub + Replace(t, pat, sub)
    decreases |a|
  {
    var s := a + pat + t;
    if a == [] {
      assert s == pat + t && s[..|pat|] == pat && s[|pat|..] == t;
    } else {
      assert !OccursAt(s, pat, 0);
      var a' := a[1..];
      assert s[1..] == a' + pat + t;
      forall i | 0 <= i < |a'| ensures !OccursAt(a' + pat + t, pat, i) {
        if OccursAt(a' + pat + t, pat, i) {
          assert s[1..][i..i + |pat|] == s[i + 1..i + 1 + |pat|];
          assert OccursAt(s, pat, i + 1);
        }
      }
      ReplaceFirst(a', pat, t, sub);
      assert [a[0]] + (a' + sub + Replace(t, pat, sub)) == a + sub + Replace(t, pat, sub);
    }
  }

  /**
   * A pattern that first occurs right after `a`, and nowhere in what follows it,
   * is replaced exactly once.
   */
  lemma ReplaceOnce(a: string, pat: string, t: string, sub: string, c: char)
    requires |pat| > 0 && pat[0] !in a && c in pat && c !in t
    ensures Replace(a + pat + t, pat, sub) == a + sub + t
  {
    NoOccurrenceBefore(a, pat, t);
    ReplaceFirst(a, pat, t, sub);
    NoCharNoOccurrence(t, pat, c);
    ReplaceAbsent(t, pat, sub);
  }

  /** A pattern holding a character the text lacks never occurs in it. */
  lemma NoCharNoOccurrence(s: string, pat: string, c: char)
    requires c in pat && c !in s
    ensures forall i :: !OccursAt(s, pat, i)
  {
    var j :| 0 <= j < |pat| && pat[j] == c;
    forall i ensures !OccursAt(s, pat, i) {
      if 0 <= i && i + |pat| <= |s| {
        assert s[i..i + |pat|][j] == s[i + j];
      }
    }
  }

  /** A pattern whose first character is not in `a` does not occur inside `a`. */
  lemma NoOccurrenceBefore(a: string, pat: string, t: string)
    requires |pat| > 0 && pat[0] !in a
    ensures forall i :: 0 <= i < |a| ==> !OccursAt(a + pat + t, pat, i)
  {
    var s := a + pat + t;
    forall i | 0 <= i < |a| ensures !OccursAt(s, pat, i) {
      assert s[i] == a[i];
      if i + |pat| <= |s| {
        assert s[i..i + |pat|][0] == s[i];
      }
    }
  }

  /** Replacing a single character by nothing removes every occurrence of it. */
  lemma {:induction false} ReplaceDeletes(s: string, c: char)
    ensures c !in Replace(s, [c], "")
    decreases |s|
  {
    if |s| >= 1 {
      ReplaceDeletes(s[1..], c);
    }
  }

  /** Dropping trailing characters other than `c` keeps the number of `c`s. */
  lemma {:induction false} RStripCharsCount(s: string, chars: set<char>, c: char)
    requires c !in chars
    ensures Count(RStripChars(s, chars), c) == Count(s, c)
  {
    if s != [] && s[|s| - 1] in chars {
      var init := s[..|s| - 1];
      RStripCharsCount(init, chars, c);
      CountAppend(init, [s[|s| - 1]], c);
      assert s == init + [s[|s| - 1]];
    }
  }

  /** Lower-casing keeps white space where it is, so it commutes with `lstrip`. */
  lemma {:induction false} LowerLStrip(s: string)
    ensures Lower(LStrip(s)) == LStrip(Lower(s))
  {
    if s != [] {
      assert Lower(s)[0] == LowerChar(s[0]);
      if IsSpace(s[0]) {
        assert Lower(s)[1..] == Lower(s[1..]);
        LowerLStrip(s[1..]);
      }
    }
  }

  /** Lower-casing keeps white space where it is, so it commutes with `rstrip`. */
  lemma {:induction false} LowerRStrip(s: string)
    ensures Lower(RStrip(s)) == RStrip(Lower(s))
  {
    if s != [] {
      assert Lower(s)[|s| - 1] == LowerChar(s[|s| - 1]);
      if IsSpace(s[|s| - 1]) {
        assert Lower(s)[..|s| - 1] == Lower(s[..|s| - 1]);
        LowerRStrip(s[..|s| - 1]);
      }
    }
  }

  /** Lower-casing commutes with `strip`. */
  lemma LowerStrip(s: string)
    ensures Lower(Strip(s)) == Strip(Lower(s))
  {
    LowerRStrip(LStrip(s));
    LowerLStrip(s);
  }

  /** Lower-casing a title-cased text is lower-casing the text. */
  lemma LowerTitle(s: string)
    ensures Lower(Title(s)) == Lower(s)
  {
    TitleCaseOnly(true, s);
  }

  /** The filter keeps the printable characters in order: filtering a concatenation concatenates. */
  lemma {:induction false} KeepPrintableAppend(a: string, b: string)
    ensures KeepPrintable(a + b) == KeepPrintable(a) + KeepPrintable(b)
  {
    if a == [] {
      assert a + b == b;
    } else {
      assert (a + b)[1..] == a[1..] + b;
      KeepPrintableAppend(a[1..], b);
    }
  }

  /** Text without the separator is split into itself. */
  lemma SplitNoSeparator(s: string, sep: char)
    requires sep !in s
    ensures Split(s, sep) == [s]
  {
    JoinSplit(s, sep);
  }

  /** Text with a single separator is split into the text before it and the text after it. */
  lemma {:induction false} SplitOnce(a: string, b: string, sep: char)
    requires sep !in a && sep !in b
    ensures Split(a + [sep] + b, sep) == [a, b]
  {
    var s := a + [sep] + b;
    if a == [] {
      assert s == [sep] + b && s[1..] == b;
      SplitNoSeparator(b, sep);
    } else {
      assert s[1..] == a[1..] + [sep] + b;
      SplitOnce(a[1..], b, sep);
      assert [a[0]] + a[1..] == a;
    }
  }

  /** Text that neither starts nor ends with white space is unchanged by `strip`. */
  lemma StripTrimmed(s: string)
    requires s != [] ==> !IsSpace(s[0]) && !IsSpace(s[|s| - 1])
    ensures Strip(s) == s
  {
    assert LStrip(s) == s;
  }

  /** Text without upper-case letters is unchanged by `lower`. */
  lemma LowerNoUpper(s: string)
    requires forall i :: 0 <= i < |s| ==> !IsUpper(s[i])
    ensures Lower(s) == s
  {
  }

  lemma AppendAssoc<T>(a: seq<T>, b: seq<T>, c: seq<T>)
    ensures (a + b) + c == a + (b + c)
  {
  }

  lemma Regroup4<T>(p: seq<T>, q: seq<T>, r: seq<T>, t: seq<T>)
    ensures p + q + r + t == p + (q + r + t)
  {
  }

  lemma Regroup5<T>(p: seq<T>, q: seq<T>, r: seq<T>, t: seq<T>, u: seq<T>)
    ensures p + q + r + t + u == p + (q + r + t + u)
  {
  }
}
