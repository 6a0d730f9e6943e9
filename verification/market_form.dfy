/** The form of the market-creation page: its four text fields, the schema
    that checks them, and the parsing of the comma-separated outcomes field
    (packages/nextjs/app/telenome/create/page.tsx). */
module MarketForm {
  import opened Wrappers
  import opened JsString

  datatype Field = Template | Subject | Description | Outcomes

  /** The values the form holds. `template` is whatever the select box
      holds; nothing restricts it to the options the page offers. */
  datatype FormValues = FormValues(template: string, subject: string, description: string, outcomes: string)

  function FieldValue(v: FormValues, f: Field): string {
    match f
    case Template => v.template
    case Subject => v.subject
    case Description => v.description
    case Outcomes => v.outcomes
  }

  /** The message the schema attaches to a field left empty. */
  function RequiredMessage(f: Field): string {
    match f
    case Template => "Template is required"
    case Subject => "Subject is required"
    case Description => "Description is required"
    case Outcomes => "Outcomes are required (comma-separated)"
  }

  datatype FieldError = FieldError(field: Field, message: string)

  /** The fields some error in `errors` is about. */
  function ReportedFields(errors: seq<FieldError>): set<Field>
    decreases |errors|
  {
    if errors == [] then {} else {errors[0].field} + ReportedFields(errors[1..])
  }

  /** The fields in the order the schema declares them. */
  const SchemaOrder: seq<Field> := [Template, Subject, Description, Outcomes]

  predicate Distinct(fields: seq<Field>) {
    forall i, j :: 0 <= i < j < |fields| ==> fields[i] != fields[j]
  }

  /** The errors for the empty fields among `fields`, in the order given. */
  function MissingFields(v: FormValues, fields: seq<Field>): seq<FieldError>
    decreases |fields|
  {
    if fields == [] then []
    else if FieldValue(v, fields[0]) == "" then
      [FieldError(fields[0], RequiredMessage(fields[0]))] + MissingFields(v, fields[1..])
    else MissingFields(v, fields[1..])
  }

  /** Exactly the empty fields among `fields` are reported. */
  lemma {:induction false} MissingFieldsReported(v: FormValues, fields: seq<Field>)
    ensures forall f: Field :: f in ReportedFields(MissingFields(v, fields)) <==> f in fields && FieldValue(v, f) == ""
    decreases |fields|
  {
    if fields != [] {
      var rest := MissingFields(v, fields[1..]);
      MissingFieldsReported(v, fields[1..]);
      assert fields == [fields[0]] + fields[1..];
      if FieldValue(v, fields[0]) == "" {
        var errors := [FieldError(fields[0], RequiredMessage(fields[0]))] + rest;
        assert errors[1..] == rest;
      }
    }
  }

  /** Each error carries the message of the field it is about. */
  predicate MessagesMatch(errors: seq<FieldError>) {
    forall i :: 0 <= i < |errors| ==> errors[i].message == RequiredMessage(errors[i].field)
  }

  /** No field is the subject of two errors. */
  predicate NoFieldTwice(errors: seq<FieldError>) {
    forall i, j :: 0 <= i < j < |errors| ==> errors[i].field != errors[j].field
  }

  lemma {:induction false} MissingFieldsMessages(v: FormValues, fields: seq<Field>)
    ensures MessagesMatch(MissingFields(v, fields))
    decreases |fields|
  {
    if fields != [] {
      var rest := MissingFields(v, fields[1..]);
      MissingFieldsMessages(v, fields[1..]);
      if FieldValue(v, fields[0]) == "" {
        var errors := [FieldError(fields[0], RequiredMessage(fields[0]))] + rest;
        assert MissingFields(v, fields) == errors;
        forall i | 0 <= i < |errors| ensures errors[i].message == RequiredMessage(errors[i].field) {
          if i > 0 {
            assert errors[i] == rest[i - 1];
          }
        }
      }
    }
  }

  /** Among distinct fields, no field is reported twice. */
  lemma {:induction false} MissingFieldsDistinct(v: FormValues, fields: seq<Field>)
    requires Distinct(fields)
    ensures NoFieldTwice(MissingFields(v, fields))
    decreases |fields|
  {
    if fields != [] {
      var rest := MissingFields(v, fields[1..]);
      assert Distinct(fields[1..]);
      MissingFieldsDistinct(v, fields[1..]);
      MissingFieldsReported(v, fields[1..]);
      assert fields[0] !in fields[1..] by {
        assert forall j :: 0 < j < |fields| ==> fields[j] != fields[0];
      }
      assert forall i :: 0 <= i < |rest| ==> rest[i].field != fields[0] by {
        forall i | 0 <= i < |rest| ensures rest[i].field != fields[0] {
          ReportedFieldAt(rest, i);
        }
      }
      if FieldValue(v, fields[0]) == "" {
        var errors := [FieldError(fields[0], RequiredMessage(fields[0]))] + rest;
        assert MissingFields(v, fields) == errors;
        forall i, j | 0 <= i < j < |errors| ensures errors[i].field != errors[j].field {
          assert errors[j] == rest[j - 1];
          if i > 0 {
            assert errors[i] == rest[i - 1];
          }
        }
      }
    }
  }

  /** No error is reported exactly when no field of the schema is empty. */
  lemma NoMissingFields(v: FormValues)
    ensures MissingFields(v, SchemaOrder) == [] <==> forall f: Field :: FieldValue(v, f) != ""
  {
    var errors := MissingFields(v, SchemaOrder);
    SchemaCoversEveryField();
    MissingFieldsReported(v, SchemaOrder);
    if errors != [] {
      ReportedFieldAt(errors, 0);
      assert FieldValue(v, errors[0].field) == "";
    }
  }

  /** The field of each error is among the reported fields. */
  lemma {:induction false} ReportedFieldAt(errors: seq<FieldError>, i: nat)
    requires i < |errors|
    ensures errors[i].field in ReportedFields(errors)
    decreases i
  {
    if i > 0 {
      ReportedFieldAt(errors[1..], i - 1);
    }
  }

  /** The schema lists every field of the form. */
  lemma SchemaCoversEveryField()
    ensures forall f: Field :: f in SchemaOrder
  {
    forall f: Field ensures f in SchemaOrder {
      match f
      case Template => assert SchemaOrder[0] == f;
      case Subject => assert SchemaOrder[1] == f;
      case Description => assert SchemaOrder[2] == f;
      case Outcomes => assert SchemaOrder[3] == f;
    }
  }

  /** The schema: every field must hold at least one character. Every empty
      field is reported, once, with its own message; a field holding only
      spaces passes. */
  function Validate(v: FormValues): (r: Result<FormValues, seq<FieldError>>)
    ensures r.Ok? <==> forall f: Field :: FieldValue(v, f) != ""
    ensures r.Ok? ==> r.value == v
    ensures r.Err? ==> forall f: Field :: f in ReportedFields(r.error) <==> FieldValue(v, f) == ""
    ensures r.Err? ==> forall i :: 0 <= i < |r.error| ==> r.error[i].message == RequiredMessage(r.error[i].field)
    ensures r.Err? ==> forall i, j :: 0 <= i < j < |r.error| ==> r.error[i].field != r.error[j].field
  {
    SchemaCoversEveryField();
    NoMissingFields(v);
    MissingFieldsReported(v, SchemaOrder);
    MissingFieldsMessages(v, SchemaOrder);
    MissingFieldsDistinct(v, SchemaOrder);
    var errors := MissingFields(v, SchemaOrder);
    if errors == [] then Ok(v) else Err(errors)
  }

  // ---------------------------------------------------------------------
  // outcomes

  /** `pieces.map(s => s.trim())`. */
  function TrimEach(pieces: seq<string>): (r: seq<string>)
    ensures |r| == |pieces|
    ensures forall i :: 0 <= i < |r| ==> r[i] == Trim(pieces[i])
  {
    seq(|pieces|, i requires 0 <= i < |pieces| => Trim(pieces[i]))
  }

  /** `pieces.filter(s => s.length > 0)`. */
  function DropEmpty(pieces: seq<string>): (r: seq<string>)
    ensures |r| <= |pieces|
    ensures forall i :: 0 <= i < |r| ==> r[i] != "" && r[i] in pieces
    decreases |pieces|
  {
    if pieces == [] then []
    else (if pieces[0] == "" then [] else [pieces[0]]) + DropEmpty(pieces[1..])
  }

  /** The outcomes field, split on commas, each piece trimmed, empty pieces
      dropped. */
  function ParseOutcomes(raw: string): (r: seq<string>)
    ensures |r| <= |Split(raw, ',')|
    ensures forall i :: 0 <= i < |r| ==> r[i] != ""
  {
    DropEmpty(TrimEach(Split(raw, ',')))
  }

  /** Every outcome is non-empty, has no whitespace at either end and holds
      no comma, and there are no more outcomes than comma-separated pieces. */
  lemma ParseOutcomesAreClean(raw: string)
    ensures var r := ParseOutcomes(raw);
      |r| <= |Split(raw, ',')|
      && forall i :: 0 <= i < |r| ==> IsCleanOutcome(r[i])
  {
    var pieces := Split(raw, ',');
    var trimmed := TrimEach(pieces);
    forall i | 0 <= i < |trimmed| ensures IsTrimmed(trimmed[i]) && ',' !in trimmed[i] {
      TrimIsTrimmed(pieces[i]);
      TrimDecompose(pieces[i]);
      assert forall c :: c in trimmed[i] ==> c in pieces[i];
    }
  }

  /** The outcomes the parse of a comma-free piece yields: its trimmed text,
      unless that is empty. */
  function PieceOutcomes(piece: string): seq<string> {
    if Trim(piece) == "" then [] else [Trim(piece)]
  }

  /** Filtering distributes over concatenation. */
  lemma {:induction false} DropEmptyAppend(a: seq<string>, b: seq<string>)
    ensures DropEmpty(a + b) == DropEmpty(a) + DropEmpty(b)
    decreases |a|
  {
    if a != [] {
      assert (a + b)[0] == a[0];
      assert (a + b)[1..] == a[1..] + b;
      DropEmptyAppend(a[1..], b);
    } else {
      assert a + b == b;
    }
  }

  lemma TrimEachAppend(a: seq<string>, b: seq<string>)
    ensures TrimEach(a + b) == TrimEach(a) + TrimEach(b)
  {
  }

  /** A piece without a comma gives its trimmed text as the only outcome, or
      nothing when it is blank. */
  lemma ParseOneOutcome(piece: string)
    requires ',' !in piece
    ensures ParseOutcomes(piece) == PieceOutcomes(piece)
  {
    assert Split(piece, ',') == [piece] by {
      SplitNoSeparator(piece, ',');
    }
    assert TrimEach([piece]) == [Trim(piece)];
    assert DropEmpty([Trim(piece)]) == PieceOutcomes(piece) by {
      assert [Trim(piece)][1..] == [];
    }
  }

  /** Parsing preserves order and keeps duplicates: the outcomes of
      `a + "," + b` are those of `a` followed by those of `b`. */
  lemma ParseOutcomesAppend(a: string, b: string)
    ensures ParseOutcomes(a + [','] + b) == ParseOutcomes(a) + ParseOutcomes(b)
  {
    var pa, pb := Split(a, ','), Split(b, ',');
    assert Split(a + [','] + b, ',') == pa + pb by {
      SplitAppend(a, b, ',');
    }
    assert TrimEach(pa + pb) == TrimEach(pa) + TrimEach(pb) by {
      TrimEachAppend(pa, pb);
    }
    DropEmptyAppend(TrimEach(pa), TrimEach(pb));
  }

  /** The outcomes are exactly the trimmed non-blank comma-separated pieces,
      in the order the pieces appear. */
  lemma {:induction false} ParseOutcomesOfJoin(pieces: seq<string>)
    requires |pieces| >= 1
    requires forall i :: 0 <= i < |pieces| ==> ',' !in pieces[i]
    ensures ParseOutcomes(Join(pieces, ',')) == PiecesOutcomes(pieces)
    decreases |pieces|
  {
    assert ParseOutcomes(pieces[0]) == PieceOutcomes(pieces[0]) by {
      ParseOneOutcome(pieces[0]);
    }
    if |pieces| > 1 {
      var rest := Join(pieces[1..], ',');
      assert ParseOutcomes(rest) == PiecesOutcomes(pieces[1..]) by {
        ParseOutcomesOfJoin(pieces[1..]);
      }
      assert ParseOutcomes(pieces[0] + [','] + rest) == ParseOutcomes(pieces[0]) + ParseOutcomes(rest) by {
        ParseOutcomesAppend(pieces[0], rest);
      }
    }
  }

  /** The whole parse, piece by piece: the outcomes of a field are the
      trimmed non-blank texts of its comma-separated pieces, in order. */
  lemma ParseOutcomesByPieces(raw: string)
    ensures ParseOutcomes(raw) == PiecesOutcomes(Split(raw, ','))
  {
    var pieces := Split(raw, ',');
    assert Join(pieces, ',') == raw by {
      JoinSplit(raw, ',');
    }
    ParseOutcomesOfJoin(pieces);
  }

  /** The outcomes of a list of comma-free pieces, piece by piece. */
  function PiecesOutcomes(pieces: seq<string>): seq<string>
    decreases |pieces|
  {
    if pieces == [] then [] else PieceOutcomes(pieces[0]) + PiecesOutcomes(pieces[1..])
  }

  /** A non-empty string survives the filter. */
  lemma {:induction false} DropEmptyKeeps(pieces: seq<string>, i: nat)
    requires i < |pieces| && pieces[i] != ""
    ensures pieces[i] in DropEmpty(pieces)
    decreases |pieces|
  {
    if i > 0 {
      DropEmptyKeeps(pieces[1..], i - 1);
    }
  }

  /** A string that parses as exactly one outcome, itself. */
  predicate IsCleanOutcome(s: string) {
    s != "" && IsTrimmed(s) && ',' !in s
  }

  /** A comma is not whitespace. */
  lemma WhitespaceHasNoComma(s: string)
    requires AllWhitespace(s)
    ensures ',' !in s
  {
    assert !IsWhitespace(',');
    assert forall k :: 0 <= k < |s| ==> s[k] != ',';
  }

  /** A clean outcome on its own parses as itself. */
  lemma ParseCleanPiece(s: string)
    requires IsCleanOutcome(s)
    ensures ParseOutcomes(s) == [s]
  {
    ParseOneOutcome(s);
    TrimOfTrimmed(s);
  }

  /** A blank piece on its own parses as no outcome at all. */
  lemma ParseBlankPiece(s: string)
    requires AllWhitespace(s)
    ensures ParseOutcomes(s) == []
  {
    WhitespaceHasNoComma(s);
    ParseOneOutcome(s);
    TrimBlank(s);
  }

  /** Empty and blank pieces are dropped and the order of the others is
      kept: `a,,b, ,c` parses as `[a, b, c]`. */
  lemma ParseDropsBlankPieces(a: string, b: string, c: string, blank: string)
    requires IsCleanOutcome(a) && IsCleanOutcome(b) && IsCleanOutcome(c) && AllWhitespace(blank)
    ensures ParseOutcomes(a + [','] + [','] + b + [','] + blank + [','] + c) == [a, b, c]
  {
    var x1 := a + [','];
    assert ParseOutcomes(x1) == [a] by {
      ParseOutcomesAppend(a, "");
      assert x1 + "" == x1;
      ParseCleanPiece(a);
      ParseBlankPiece("");
    }
    var x2 := x1 + [','] + b;
    assert ParseOutcomes(x2) == [a, b] by {
      ParseOutcomesAppend(x1, b);
      ParseCleanPiece(b);
    }
    var x3 := x2 + [','] + blank;
    assert ParseOutcomes(x3) == [a, b] by {
      ParseOutcomesAppend(x2, blank);
      ParseBlankPiece(blank);
    }
    ParseOutcomesAppend(x3, c);
    ParseCleanPiece(c);
  }

  /** Whitespace after a comma is trimmed away: `a, b` parses as `[a, b]`. */
  lemma ParseTrimsPieces(a: string, space: string, b: string)
    requires IsCleanOutcome(a) && IsCleanOutcome(b) && AllWhitespace(space)
    ensures ParseOutcomes(a + [','] + space + b) == [a, b]
  {
    assert a + [','] + space + b == a + [','] + (space + b);
    assert ParseOutcomes(space + b) == [b] by {
      WhitespaceHasNoComma(space);
      assert ',' !in space + b;
      ParseOneOutcome(space + b);
      TrimExact(space, b, "");
      assert space + b + "" == space + b;
    }
    assert ParseOutcomes(a + [','] + (space + b)) == [a, b] by {
      ParseCleanPiece(a);
      ParseOutcomesAppend(a, space + b);
    }
  }

  /** Repeated outcomes are kept: `a,a` parses as `[a, a]`. */
  lemma ParseKeepsDuplicates(a: string)
    requires IsCleanOutcome(a)
    ensures ParseOutcomes(a + [','] + a) == [a, a]
  {
    ParseCleanPiece(a);
    ParseOutcomesAppend(a, a);
  }

  /** The field "A,,B, ,C" gives the outcomes A, B and C. */
  lemma ParseExampleWithBlanks()
    ensures ParseOutcomes("A,,B, ,C") == ["A", "B", "C"]
  {
    assert "A,,B, ,C" == "A" + [','] + [','] + "B" + [','] + " " + [','] + "C";
    ParseDropsBlankPieces("A", "B", "C", " ");
  }

  /** The field "Yes, No" gives the outcomes Yes and No. */
  lemma ParseExampleYesNo()
    ensures ParseOutcomes("Yes, No") == ["Yes", "No"]
  {
    assert "Yes, No" == "Yes" + [','] + " " + "No";
    ParseTrimsPieces("Yes", " ", "No");
  }

  /** The field "OnlyOne" gives a single outcome. */
  lemma ParseExampleOnlyOne()
    ensures ParseOutcomes("OnlyOne") == ["OnlyOne"]
  {
    ParseCleanPiece("OnlyOne");
  }

  /** Filtering keeps exactly the non-empty strings. */
  lemma DropEmptyMembers(pieces: seq<string>, x: string)
    ensures x in DropEmpty(pieces) <==> x != "" && x in pieces
  {
    if x != "" && x in pieces {
      var i :| 0 <= i < |pieces| && pieces[i] == x;
      DropEmptyKeeps(pieces, i);
    }
  }

  /** Mapping `trim` yields exactly the trimmed pieces. */
  lemma TrimEachMembers(pieces: seq<string>, x: string)
    ensures x in TrimEach(pieces) <==> exists i :: 0 <= i < |pieces| && Trim(pieces[i]) == x
  {
    var trimmed := TrimEach(pieces);
    if x in trimmed {
      var i :| 0 <= i < |trimmed| && trimmed[i] == x;
      assert Trim(pieces[i]) == x;
    }
    if exists i :: 0 <= i < |pieces| && Trim(pieces[i]) == x {
      var i :| 0 <= i < |pieces| && Trim(pieces[i]) == x;
      assert trimmed[i] == x;
    }
  }

  /** An outcome survives the parse exactly when it is not empty and some
      comma-separated piece of the input trims to it. */
  lemma ParseOutcomesMembers(raw: string, x: string)
    ensures x in ParseOutcomes(raw) <==>
      x != "" && exists i :: 0 <= i < |Split(raw, ',')| && Trim(Split(raw, ',')[i]) == x
  {
    var pieces := Split(raw, ',');
    assert ParseOutcomes(raw) == DropEmpty(TrimEach(pieces));
    DropEmptyMembers(TrimEach(pieces), x);
    TrimEachMembers(pieces, x);
    assert x in ParseOutcomes(raw) <==> x != "" && x in TrimEach(pieces);
    assert x in TrimEach(pieces) <==> exists i :: 0 <= i < |pieces| && Trim(pieces[i]) == x;
  }
}
