/**
 * The row email resolver: the `validate_email_entry` nested in
 * `check_birthdays_and_send_email` (birthday_mailer.py), which turns one EMAIL
 * cell into the addresses accepted from it.
 */
module Resolver {
  import opened Wrappers
  import opened PyStr
  import opened Normalizer
  import opened Validator
  import opened Corrector
  import opened RunAnalytics

  /** An EMAIL cell as the spreadsheet reader hands it over: `None`, a missing number, or text. */
  datatype Cell = Null | NaN | Text(s: string)

  /** `str(val)` */
  function CellText(val: Cell): (r: string)
    ensures val.Text? ==> r == val.s
    ensures val.Null? ==> Lower(r) == "none"
    ensures val.NaN? ==> Lower(r) == "nan"
  {
    match val
    case Null => assert Lower("None") == "none"; "None"
    case NaN => assert Lower("nan") == "nan"; "nan"
    case Text(s) => s
  }

  /**
   * `not val or str(val).lower() in ['nan', 'none', '']` (`NaN` is truthy in Python):
   * `None` and NaN are missing, and a text exactly when it is empty, `nan` or `none`
   * in any case.
   */
  predicate IsMissing(val: Cell): (m: bool)
    ensures !val.Text? ==> m
    ensures val.Text? ==> (m <==> Lower(val.s) in ["nan", "none", ""])
  {
    assert Lower("nan") == "nan";
    assert Lower("None") == "none";
    || val == Null || val == Text("")
    || Lower(CellText(val)) in ["nan", "none", ""]
  }

  /** `f` applied to every text of `xs`. */
  function MapEach(f: string -> string, xs: seq<string>): (r: seq<string>)
    ensures |r| == |xs| && forall i :: 0 <= i < |xs| ==> r[i] == f(xs[i])
  {
    seq(|xs|, i requires 0 <= i < |xs| => f(xs[i]))
  }

  lemma MapEachAppend(f: string -> string, a: seq<string>, b: seq<string>)
    ensures MapEach(f, a + b) == MapEach(f, a) + MapEach(f, b)
  {
  }

  /** The non-empty texts of `xs`, in order. */
  function NonEmpty(xs: seq<string>): (r: seq<string>)
    ensures |r| <= |xs|
    ensures forall x :: x in r <==> x in xs && x != []
  {
    if xs == [] then []
    else NonEmpty(xs[..|xs| - 1]) + if xs[|xs| - 1] != [] then [xs[|xs| - 1]] else []
  }

  /** Filtering keeps the order: filtering a concatenation concatenates the results. */
  lemma {:induction false} NonEmptyAppend(xs: seq<string>, ys: seq<string>)
    ensures NonEmpty(xs + ys) == NonEmpty(xs) + NonEmpty(ys)
    decreases |ys|
  {
    if ys == [] {
      assert xs + ys == xs;
    } else {
      var ys' := ys[..|ys| - 1];
      assert (xs + ys)[..|xs + ys| - 1] == xs + ys';
      assert (xs + ys)[|xs + ys| - 1] == ys[|ys| - 1];
      NonEmptyAppend(xs, ys');
    }
  }

  /**
   * `[e.strip() for e in parts if e.strip()]`: exactly the stripped parts that are
   * not empty; StripNonEmptyAppend gives their order.
   */
  function StripNonEmpty(parts: seq<string>): (r: seq<string>)
    ensures |r| <= |parts|
    ensures forall x :: x in r <==> x != [] && exists j :: 0 <= j < |parts| && Strip(parts[j]) == x
    ensures |parts| == 1 ==> r == if Strip(parts[0]) != [] then [Strip(parts[0])] else []
  {
    var stripped := MapEach(Strip, parts);
    assert |parts| == 1 ==> stripped[..0] == [];
    NonEmpty(stripped)
  }

  /** The comprehension keeps the order of the parts: a concatenation gives a concatenation. */
  lemma StripNonEmptyAppend(a: seq<string>, b: seq<string>)
    ensures StripNonEmpty(a + b) == StripNonEmpty(a) + StripNonEmpty(b)
  {
    MapEachAppend(Strip, a, b);
    NonEmptyAppend(MapEach(Strip, a), MapEach(Strip, b));
  }

  /** The comma-separated pieces of a cell, stripped, without the empty ones. */
  function Pieces(text: string): seq<string> {
    StripNonEmpty(Split(text, ','))
  }

  /** What happens to one piece: dropped, accepted as cleaned, or accepted in corrected form. */
  datatype Outcome = Skipped | Accepted(addr: string) | Corrected(addr: string, note: string)

  /** The message logged for a correction. */
  function CorrectionNote(piece: string, corrected: string): (note: string)
    ensures |note| == |piece| + |corrected| + 18
    ensures note[11..11 + |piece|] == piece
    ensures note[|note| - 1 - |corrected|..|note| - 1] == corrected
  {
    var note := "Corrected '" + piece + "' to '" + corrected + "'";
    assert note == ("Corrected '" + piece) + ("' to '" + corrected + "'");
    note
  }

  /**
   * One piece: its cleaned form if that is valid, else its correction if there is a
   * non-empty one and it is valid, else nothing.
   */
  function ResolvePiece(piece: string): (o: Outcome)
    ensures !o.Skipped? ==> IsValidEmailFormat(o.addr)
    ensures o.Corrected? ==> o.note == CorrectionNote(piece, o.addr)
  {
    var cleaned := CleanText(piece);
    if cleaned == [] then Skipped
    else if IsValidEmailFormat(cleaned) then Accepted(cleaned)
    else
      var corrected := AttemptEmailCorrection(cleaned);
      if corrected.Some? && corrected.value != [] && IsValidEmailFormat(corrected.value)
      then Corrected(corrected.value, CorrectionNote(piece, corrected.value))
      else Skipped
  }

  /**
   * The decision for one piece, case by case: the cleaned form when it is valid;
   * otherwise a correction, only when it exists and is valid; a piece that cleans
   * to nothing is dropped.
   */
  lemma ResolvePieceCases(piece: string)
    ensures var o, cleaned := ResolvePiece(piece), CleanText(piece);
      && (cleaned == [] ==> o == Skipped)
      && (o.Accepted? <==> cleaned != [] && IsValidEmailFormat(cleaned))
      && (o.Accepted? ==> o.addr == cleaned)
      && (o.Corrected? ==>
            && !IsValidEmailFormat(cleaned)
            && AttemptEmailCorrection(cleaned) == Some(o.addr)
            && IsValidEmailFormat(o.addr))
      && (!o.Skipped? ==> IsValidEmailFormat(o.addr))
      && ((&& cleaned != [] && !IsValidEmailFormat(cleaned)
           && AttemptEmailCorrection(cleaned).Some?
           && IsValidEmailFormat(AttemptEmailCorrection(cleaned).value)) ==> o.Corrected?)
  {
  }

  /** The accepted addresses of a cell, in order, and the corrections logged for it. */
  datatype Resolution = Resolution(accepted: seq<string>, corrections: seq<string>)

  /**
   * The loop over the pieces, for a given decision per piece: each piece accepted
   * in either form adds its address after those of the pieces before it, and each
   * corrected one also adds its note.
   */
  function ResolveAll(resolve: string -> Outcome, pieces: seq<string>): (r: Resolution)
    ensures |r.accepted| <= |pieces|
    ensures |r.corrections| <= |r.accepted|
  {
    if pieces == [] then Resolution([], [])
    else
      var r := ResolveAll(resolve, pieces[..|pieces| - 1]);
      match resolve(pieces[|pieces| - 1])
      case Skipped => r
      case Accepted(a) => Resolution(r.accepted + [a], r.corrections)
      case Corrected(a, note) => Resolution(r.accepted + [a], r.corrections + [note])
  }

  /** The loop with the resolver's own decision: only valid addresses, at most one per piece. */
  function ResolvePieces(pieces: seq<string>): (r: Resolution)
    ensures |r.accepted| <= |pieces|
    ensures forall a :: a in r.accepted ==> IsValidEmailFormat(a)
  {
    var r := ResolveAll(ResolvePiece, pieces);
    forall a | a in r.accepted ensures IsValidEmailFormat(a) {
      AcceptedComeFrom(ResolvePiece, pieces, a);
    }
    r
  }

  /**
   * What `validate_email_entry` returns for a cell, and what it logs: a missing
   * cell gives nothing; otherwise only valid addresses, at most one per piece.
   */
  function ResolveCell(val: Cell): (r: Resolution)
    ensures IsMissing(val) ==> r == Resolution([], [])
    ensures forall a :: a in r.accepted ==> IsValidEmailFormat(a)
    ensures !IsMissing(val) ==> |r.accepted| <= |Pieces(CellText(val))|
  {
    if IsMissing(val) then Resolution([], []) else ResolvePieces(Pieces(CellText(val)))
  }

  lemma PresentCell(val: Cell)
    requires !IsMissing(val)
    ensures ResolveCell(val) == ResolveAll(ResolvePiece, Pieces(CellText(val)))
  {
  }

  /**
   * The nested `validate_email_entry`: returns the accepted addresses, appends each
   * correction to the analytics, and appends `str(val)` to the caller's reject list
   * exactly when nothing was accepted.
   */
  method ValidateEmailEntry(val: Cell, invalidEmails: TextList, analytics: Analytics) returns (valid: seq<string>)
    modifies invalidEmails, analytics`corrections
    ensures valid == ResolveCell(val).accepted
    ensures analytics.corrections == old(analytics.corrections) + ResolveCell(val).corrections
    ensures invalidEmails.items == old(invalidEmails.items) + (if valid == [] then [CellText(val)] else [])
  {
    ghost var r := ResolveCell(val);
    var text := CellText(val);
    if IsMissing(val) {
      assert r == Resolution([], []);
      invalidEmails.items := invalidEmails.items + [text];
      return [];
    }
    var emails := Pieces(text);
    PresentCell(val);
    valid := ResolveEach(ResolvePiece, emails, analytics);
    if valid == [] {
      invalidEmails.items := invalidEmails.items + [text];
    }
  }

  /**
   * The `for email in emails` loop, with the decision for one piece given as
   * `resolve`: appends each accepted address to the result and each correction
   * note to the analytics.
   */
  method ResolveEach(resolve: string -> Outcome, emails: seq<string>, analytics: Analytics) returns (valid: seq<string>)
    modifies analytics`corrections
    ensures valid == ResolveAll(resolve, emails).accepted
    ensures analytics.corrections == old(analytics.corrections) + ResolveAll(resolve, emails).corrections
  {
    valid := [];
    for i := 0 to |emails|
      invariant valid == ResolveAll(resolve, emails[..i]).accepted
      invariant analytics.corrections == old(analytics.corrections) + ResolveAll(resolve, emails[..i]).corrections
    {
      assert emails[..i + 1] == emails[..i] + [emails[i]];
      ResolveAllSnoc(resolve, emails[..i], emails[i]);
      match resolve(emails[i])
      case Skipped =>
      case Accepted(a) =>
        valid := valid + [a];
      case Corrected(a, note) =>
        analytics.corrections := analytics.corrections + [note];
        valid := valid + [a];
    }
    assert emails[..|emails|] == emails;
  }

  /** The loop keeps the order of the pieces: resolving a concatenation concatenates the results. */
  lemma {:induction false} ResolveAllAppend(resolve: string -> Outcome, p: seq<string>, q: seq<string>)
    ensures ResolveAll(resolve, p + q).accepted == ResolveAll(resolve, p).accepted + ResolveAll(resolve, q).accepted
    ensures ResolveAll(resolve, p + q).corrections == ResolveAll(resolve, p).corrections + ResolveAll(resolve, q).corrections
    decreases |q|
  {
    if q == [] {
      assert p + q == p;
    } else {
      var q' := q[..|q| - 1];
      assert (p + q)[..|p + q| - 1] == p + q';
      assert (p + q)[|p + q| - 1] == q[|q| - 1];
      ResolveAllAppend(resolve, p, q');
    }
  }

  /** One more piece: the loop adds what the decision makes of it. */
  lemma ResolveAllSnoc(resolve: string -> Outcome, p: seq<string>, piece: string)
    ensures var r := ResolveAll(resolve, p);
      ResolveAll(resolve, p + [piece]) ==
        match resolve(piece)
        case Skipped => r
        case Accepted(a) => Resolution(r.accepted + [a], r.corrections)
        case Corrected(a, note) => Resolution(r.accepted + [a], r.corrections + [note])
  {
    assert (p + [piece])[..|p|] == p;
  }

  /** Every accepted address is the address of a piece the decision accepts. */
  lemma {:induction false} AcceptedComeFrom(resolve: string -> Outcome, pieces: seq<string>, a: string)
    requires a in ResolveAll(resolve, pieces).accepted
    ensures exists i :: 0 <= i < |pieces| && !resolve(pieces[i]).Skipped? && resolve(pieces[i]).addr == a
  {
    var n := |pieces|;
    var init := pieces[..n - 1];
    if a in ResolveAll(resolve, init).accepted {
      AcceptedComeFrom(resolve, init, a);
      var i :| 0 <= i < n - 1 && !resolve(init[i]).Skipped? && resolve(init[i]).addr == a;
      assert init[i] == pieces[i];
    }
  }

  /** `a` is what the resolver makes of `piece`: its cleaned form or that form's correction. */
  predicate ComesFrom(a: string, piece: string) {
    var cleaned := CleanText(piece);
    a == cleaned || AttemptEmailCorrection(cleaned) == Some(a)
  }

  lemma ResolvePieceComesFrom(piece: string)
    ensures var o := ResolvePiece(piece); !o.Skipped? ==> ComesFrom(o.addr, piece)
  {
    ResolvePieceCases(piece);
  }

  /** Every accepted address is the cleaned form of some piece, or its correction. */
  lemma AcceptedComeFromPieces(pieces: seq<string>, a: string)
    requires a in ResolvePieces(pieces).accepted
    ensures exists i :: 0 <= i < |pieces| && ComesFrom(a, pieces[i])
  {
    AcceptedComeFrom(ResolvePiece, pieces, a);
    var i :| 0 <= i < |pieces| && !ResolvePiece(pieces[i]).Skipped? && ResolvePiece(pieces[i]).addr == a;
    ResolvePieceComesFrom(pieces[i]);
  }

  /** Whether an outcome is counted: accepted in either form, or only in corrected form. */
  predicate Keeps(o: Outcome, corrected: bool) {
    !o.Skipped? && (corrected ==> o.Corrected?)
  }

  /** The positions of the pieces the decision accepts in either form, or only in corrected form. */
  function Where(resolve: string -> Outcome, pieces: seq<string>, corrected: bool): set<int> {
    set i | 0 <= i < |pieces| && Keeps(resolve(pieces[i]), corrected)
  }

  /**
   * The loop yields one address per piece accepted in either form, and logs one
   * correction per piece accepted in corrected form.
   */
  lemma {:induction false} ResolveAllCounts(resolve: string -> Outcome, pieces: seq<string>)
    ensures |ResolveAll(resolve, pieces).accepted| == |Where(resolve, pieces, false)|
    ensures |ResolveAll(resolve, pieces).corrections| == |Where(resolve, pieces, true)|
  {
    if pieces != [] {
      var n := |pieces|;
      var init := pieces[..n - 1];
      ResolveAllCounts(resolve, init);
      assert init + [pieces[n - 1]] == pieces;
      WhereSnoc(resolve, init, pieces[n - 1], false);
      WhereSnoc(resolve, init, pieces[n - 1], true);
    }
  }

  lemma WhereSnoc(resolve: string -> Outcome, init: seq<string>, piece: string, corrected: bool)
    ensures |Where(resolve, init + [piece], corrected)| ==
      |Where(resolve, init, corrected)| + if Keeps(resolve(piece), corrected) then 1 else 0
  {
    var n := |init|;
    WhereExtends(resolve, init, piece, corrected);
    assert n !in Where(resolve, init, corrected);
  }

  lemma WhereExtends(resolve: string -> Outcome, init: seq<string>, piece: string, corrected: bool)
    ensures Where(resolve, init + [piece], corrected) ==
      Where(resolve, init, corrected) + if Keeps(resolve(piece), corrected) then {|init|} else {}
  {
    var ps := init + [piece];
    forall i | 0 <= i < |init| ensures ps[i] == init[i] {
    }
  }
}
