/**
  The dish form (`addDish` in script.js): the title field is trimmed, the
  ingredients field is split on commas, every piece is trimmed, empty
  pieces are dropped, and the submission is refused before any request when
  the title or the ingredient list comes out empty.
 */
module Dishes {
  import opened Strings
  import opened Sequences

  /** A dish as the menu and the remote sheet hold it. */
  datatype Dish = Dish(title: string, ingredients: seq<string>)

  /** The separator of the ingredients field. */
  const Comma: char := ','

  /** What parsing can produce: non-empty, trimmed, comma-free text. */
  predicate IsIngredient(x: string) {
    x != [] && IsTrimmed(x) && Comma !in x
  }

  /** Input with nothing but commas and whitespace in it. */
  predicate OnlySeparators(s: string) {
    forall k :: 0 <= k < |s| ==> s[k] == Comma || IsWhitespace(s[k])
  }

  /** `.map((i) => i.trim())` */
  function TrimAll(ps: seq<string>): (r: seq<string>)
    ensures |r| == |ps|
    ensures forall k :: 0 <= k < |ps| ==> r[k] == Trim(ps[k])
  {
    if |ps| == 0 then [] else [Trim(ps[0])] + TrimAll(ps[1..])
  }

  /** `.filter(Boolean)` on strings: only the empty string is falsy. */
  function DropEmpty(ps: seq<string>): (r: seq<string>)
    ensures forall k :: 0 <= k < |r| ==> r[k] != []
    ensures forall x :: x in r <==> x in ps && x != []
  {
    if |ps| == 0 then []
    else if ps[0] == [] then DropEmpty(ps[1..])
    else [ps[0]] + DropEmpty(ps[1..])
  }

  /** On one string `filter(Boolean)` keeps it exactly when it is
      non-empty; with `DropEmptyConcat` this fixes the order and the
      repetitions of the result on every input. */
  lemma DropEmptySingle(x: string)
    ensures DropEmpty([x]) == if x == [] then [] else [x]
  {
    assert [x][1..] == [];
  }

  lemma {:induction false} TrimAllConcat(a: seq<string>, b: seq<string>)
    ensures TrimAll(a + b) == TrimAll(a) + TrimAll(b)
  {
    if a != [] {
      assert (a + b)[1..] == a[1..] + b;
      TrimAllConcat(a[1..], b);
    } else {
      assert a + b == b;
    }
  }

  lemma {:induction false} DropEmptyConcat(a: seq<string>, b: seq<string>)
    ensures DropEmpty(a + b) == DropEmpty(a) + DropEmpty(b)
  {
    if a != [] {
      assert (a + b)[1..] == a[1..] + b;
      DropEmptyConcat(a[1..], b);
    } else {
      assert a + b == b;
    }
  }

  /** The ingredient list of the form: split on commas, trim every piece,
      drop the empty ones. */
  function ParseIngredients(s: string): (r: seq<string>)
    ensures forall k :: 0 <= k < |r| ==> IsIngredient(r[k])
    ensures forall x :: x in r <==> x != [] && exists p :: p in Split(s, Comma) && x == Trim(p)
  {
    var r := DropEmpty(TrimAll(Split(s, Comma)));
    TrimmedPiecesAreIngredients(Split(s, Comma));
    TrimmedPiecesMembers(Split(s, Comma));
    r
  }

  lemma TrimmedPiecesAreIngredients(pieces: seq<string>)
    requires forall k :: 0 <= k < |pieces| ==> Comma !in pieces[k]
    ensures forall x :: x in DropEmpty(TrimAll(pieces)) ==> IsIngredient(x)
  {
    var trimmed := TrimAll(pieces);
    forall x | x in DropEmpty(trimmed) ensures IsIngredient(x) {
      var m :| 0 <= m < |trimmed| && trimmed[m] == x;
      TrimSpec(pieces[m]);
      TrimChars(pieces[m]);
    }
  }

  lemma TrimmedPiecesMembers(pieces: seq<string>)
    ensures forall x :: x in DropEmpty(TrimAll(pieces)) <==> x != [] && exists p :: p in pieces && x == Trim(p)
  {
    forall x ensures x in TrimAll(pieces) <==> exists p :: p in pieces && x == Trim(p) {
      TrimAllMember(pieces, x);
    }
  }

  lemma TrimAllMember(pieces: seq<string>, x: string)
    ensures x in TrimAll(pieces) <==> exists p :: p in pieces && x == Trim(p)
  {
    var trimmed := TrimAll(pieces);
    if x in trimmed {
      var m :| 0 <= m < |trimmed| && trimmed[m] == x;
      assert pieces[m] in pieces;
    }
    if exists p :: p in pieces && x == Trim(p) {
      var p :| p in pieces && x == Trim(p);
      var m :| 0 <= m < |pieces| && pieces[m] == p;
      assert trimmed[m] == x;
    }
  }

  /** A comma splits the field into two independently parsed halves. */
  lemma ParseConcat(a: string, b: string)
    ensures ParseIngredients(a + [Comma] + b) == ParseIngredients(a) + ParseIngredients(b)
  {
    SplitConcat(a, b, Comma);
    TrimAllConcat(Split(a, Comma), Split(b, Comma));
    DropEmptyConcat(TrimAll(Split(a, Comma)), TrimAll(Split(b, Comma)));
  }

  /** Without a comma the field is a single ingredient, or none when it is
      blank. */
  lemma ParseSingle(s: string)
    requires Comma !in s
    ensures ParseIngredients(s) == if AllWhitespace(s) then [] else [Trim(s)]
  {
    TrimSpec(s);
    assert Split(s, Comma) == [s];
    assert TrimAll([s]) == [Trim(s)];
    assert DropEmpty([Trim(s)]) == if Trim(s) == [] then [] else [Trim(s)];
  }

  /** Empty pieces, such as the one between two consecutive commas, leave
      no trace in the result. */
  lemma ParseSkipsEmptyPiece(a: string, b: string)
    ensures ParseIngredients(a + [Comma, Comma] + b) == ParseIngredients(a) + ParseIngredients(b)
  {
    assert a + [Comma, Comma] + b == a + [Comma] + ([] + [Comma] + b);
    ParseConcat(a, [] + [Comma] + b);
    ParseConcat([], b);
    ParseSingle([]);
  }

  /** The parse comes out empty exactly when the field holds nothing but
      commas and whitespace. */
  lemma {:induction false} ParseEmptyIff(s: string)
    ensures ParseIngredients(s) == [] <==> OnlySeparators(s)
    decreases |s|
  {
    if Comma !in s {
      ParseSingle(s);
      assert OnlySeparators(s) <==> AllWhitespace(s);
    } else {
      var i := FirstIndex(s, Comma);
      var a, b := s[..i], s[i + 1..];
      assert s == a + [Comma] + b;
      ParseConcat(a, b);
      ParseSingle(a);
      ParseEmptyIff(b);
      assert OnlySeparators(s) <==> AllWhitespace(a) && OnlySeparators(b) by {
        SeparatorsSplit(a, b);
      }
    }
  }

  lemma SeparatorsSplit(a: string, b: string)
    requires Comma !in a
    ensures OnlySeparators(a + [Comma] + b) <==> AllWhitespace(a) && OnlySeparators(b)
  {
    var s := a + [Comma] + b;
    if OnlySeparators(s) {
      forall k | 0 <= k < |a| ensures IsWhitespace(a[k]) {
        assert s[k] == a[k];
      }
      forall k | 0 <= k < |b| ensures b[k] == Comma || IsWhitespace(b[k]) {
        assert s[|a| + 1 + k] == b[k];
      }
    }
  }

  /** The outcome of pressing "save": refused, or a dish to send. */
  datatype Submission = Rejected | Post(dish: Dish)

  /** The guard of the form: a title and at least one ingredient. */
  predicate CanSubmit(title: string, ingredients: seq<string>) {
    title != [] && |ingredients| > 0
  }

  /** `addDish` up to the request: parse both fields and refuse the
      submission when either comes out empty. */
  function SubmitDish(titleField: string, ingredientsField: string): (r: Submission)
    ensures r.Rejected? <==> AllWhitespace(titleField) || OnlySeparators(ingredientsField)
    ensures r.Post? ==> && r.dish.title != []
                        && IsTrimmed(r.dish.title)
                        && IsTrimOf(r.dish.title, titleField)
                        && |r.dish.ingredients| > 0
                        && (forall k :: 0 <= k < |r.dish.ingredients| ==> IsIngredient(r.dish.ingredients[k]))
                        && r.dish.ingredients == ParseIngredients(ingredientsField)
  {
    var title := Trim(titleField);
    TrimSpec(titleField);
    var ingredients := ParseIngredients(ingredientsField);
    ParseEmptyIff(ingredientsField);
    if !CanSubmit(title, ingredients) then Rejected
    else Post(Dish(title, ingredients))
  }
}
