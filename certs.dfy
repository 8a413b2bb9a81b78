/** How the script reads the semicolon-separated certification field: once to
    build the node list (app_visual.py line 84), once for the filter's option
    list (line 30) and once, with a slightly different rule, in the
    certification filter (line 70). */
module Certs {
  import opened Seqs
  import opened Text
  import opened Table

  /** The separator of the certification field. */
  const Separator: char := ';'

  /** Strip every piece and drop the pieces that are empty afterwards,
      keeping the order of the pieces. */
  function CleanPieces(pieces: seq<string>): (certs: seq<string>)
    ensures |certs| <= |pieces|
    ensures forall i :: 0 <= i < |certs| ==>
      certs[i] != [] && !IsSpace(certs[i][0]) && !IsSpace(certs[i][|certs[i]| - 1])
  {
    if pieces == [] then []
    else
      var c := Strip(pieces[0]);
      (if c == [] then [] else [c]) + CleanPieces(pieces[1..])
  }

  /** A certificate comes out of `CleanPieces` exactly when it is the non-empty
      stripped form of one of the pieces. */
  lemma {:induction false} CleanPiecesMembers(pieces: seq<string>, c: string)
    ensures c in CleanPieces(pieces) <==> c != [] && exists p :: p in pieces && Strip(p) == c
  {
    if pieces != [] {
      CleanPiecesMembers(pieces[1..], c);
      var head := Strip(pieces[0]);
      assert CleanPieces(pieces) == (if head == [] then [] else [head]) + CleanPieces(pieces[1..]);
      if c in CleanPieces(pieces[1..]) {
        var p :| p in pieces[1..] && Strip(p) == c;
        assert p in pieces;
      }
      if c != [] && (exists p :: p in pieces && Strip(p) == c) {
        var p :| p in pieces && Strip(p) == c;
        if p != pieces[0] {
          assert p in pieces[1..];
        }
      }
    }
  }

  /** Stripping adds no character, so a character no piece holds is in no
      cleaned piece either. */
  lemma {:induction false} CleanPiecesAvoid(pieces: seq<string>, x: char)
    requires forall p :: p in pieces ==> x !in p
    ensures forall c :: c in CleanPieces(pieces) ==> x !in c
  {
    if pieces != [] {
      CleanPiecesAvoid(pieces[1..], x);
      assert pieces[0] in pieces;
    }
  }

  /** Cleaning works piece by piece: cleaning two lists of pieces one after
      the other gives the two cleaned lists one after the other. */
  lemma {:induction false} CleanPiecesAppend(p: seq<string>, q: seq<string>)
    ensures CleanPieces(p + q) == CleanPieces(p) + CleanPieces(q)
  {
    if p == [] {
      assert p + q == q;
    } else {
      assert (p + q)[0] == p[0];
      assert (p + q)[1..] == p[1..] + q;
      CleanPiecesAppend(p[1..], q);
      var c := Strip(p[0]);
      AppendAssoc(if c == [] then [] else [c], CleanPieces(p[1..]), CleanPieces(q));
    }
  }

  /** The certificates of one row: `[c.strip() for c in s.split(";") if c.strip()]`.
      Each is non-empty, has no whitespace at either end and holds no separator;
      there are at most as many as the field has pieces. Duplicates are kept. */
  function SplitCerts(field: string): (certs: seq<string>)
    ensures |certs| <= Count(field, Separator) + 1
    ensures forall c :: c in certs ==>
      && c != []
      && !IsSpace(c[0]) && !IsSpace(c[|c| - 1])
      && Separator !in c
  {
    var pieces := Split(field, Separator);
    CleanPiecesAvoid(pieces, Separator);
    CleanPieces(pieces)
  }

  /** A field without a separator is one certificate, its stripped form,
      unless nothing is left after stripping. */
  lemma SplitCertsOfPiece(field: string)
    requires Separator !in field
    ensures SplitCerts(field) == if Strip(field) == [] then [] else [Strip(field)]
  {
    SplitWithoutSeparator(field, Separator);
    assert [field][1..] == [];
  }

  /** The certificates of `a;b` are the certificates of `a` followed by those
      of `b`: order is kept and nothing is merged. Together with
      `SplitCertsOfPiece` this determines the certificate list of any field. */
  lemma SplitCertsAppend(a: string, b: string)
    ensures SplitCerts(a + [Separator] + b) == SplitCerts(a) + SplitCerts(b)
  {
    SplitAppend(a, Separator, b);
    CleanPiecesAppend(Split(a, Separator), Split(b, Separator));
  }

  /** Duplicates are kept: a certificate listed twice is returned twice. */
  lemma SplitCertsKeepsDuplicates(cert: string)
    requires cert != [] && Strip(cert) == cert && Separator !in cert
    ensures SplitCerts(cert + [Separator] + cert) == [cert, cert]
  {
    SplitCertsOfPiece(cert);
    assert SplitCerts(cert) == [cert];
    SplitCertsAppend(cert, cert);
  }

  /** `c` is a certificate of the field exactly when it is a non-empty stripped
      piece of it. */
  lemma SplitCertsMembers(field: string, c: string)
    ensures c in SplitCerts(field) <==> c != [] && exists p :: p in Split(field, Separator) && Strip(p) == c
  {
    CleanPiecesMembers(Split(field, Separator), c);
  }

  /** The certification filter's test on one row (line 70):
      `any(c.strip() in selected for c in x.split(';'))`. Unlike line 84 it does
      not drop the empty pieces. */
  predicate HasSelectedCert(field: string, selected: seq<string>)
    ensures HasSelectedCert(field, selected) ==> selected != []
    ensures Separator !in field ==> (HasSelectedCert(field, selected) <==> Strip(field) in selected)
  {
    SplitWithoutSeparator(field, Separator);
    exists p :: p in Split(field, Separator) && Strip(p) in selected
  }

  /** When the empty string is not selected, the filter's test is exactly "one
      of the row's certificates is selected". */
  lemma HasSelectedCertIffSomeCertSelected(field: string, selected: seq<string>)
    requires [] !in selected
    ensures HasSelectedCert(field, selected) <==> exists c :: c in SplitCerts(field) && c in selected
  {
    if HasSelectedCert(field, selected) {
      var p :| p in Split(field, Separator) && Strip(p) in selected;
      SplitCertsMembers(field, Strip(p));
    }
    if exists c :: c in SplitCerts(field) && c in selected {
      var c :| c in SplitCerts(field) && c in selected;
      SplitCertsMembers(field, c);
    }
  }

  /** The certification options offered to the user (line 30): every
      certificate of every row, as a set. */
  function CertOptions(rows: seq<Row>): (options: set<string>)
    ensures [] !in options
    ensures forall r, c :: r in rows && c in SplitCerts(r.certs) ==> c in options
    ensures forall c :: c in options ==> exists r :: r in rows && c in SplitCerts(r.certs)
  {
    set r, c | r in rows && c in SplitCerts(r.certs) :: c
  }

  /** A selection made from the offered options never contains the empty
      string, so on such a selection the filter's rule (line 70) and the
      node-building rule (line 84) agree. */
  lemma SelectionFromOptionsMatchesSplitCerts(rows: seq<Row>, selected: seq<string>, field: string)
    requires forall s :: s in selected ==> s in CertOptions(rows)
    ensures HasSelectedCert(field, selected) <==> exists c :: c in SplitCerts(field) && c in selected
  {
    HasSelectedCertIffSomeCertSelected(field, selected);
  }

  /** The empty string would match an empty piece: a row whose field is empty
      passes a selection that holds the empty string although it has no
      certificate at all. */
  lemma EmptySelectionMatchesEmptyPiece()
    ensures SplitCerts("") == []
    ensures HasSelectedCert("", [""])
  {
    assert Split("", Separator) == [""];
    assert Strip("") == "";
  }
}
