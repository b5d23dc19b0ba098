/**
 The product table the chatbot reads once at start-up and never changes. A row
 is identified only by its zero-based position.
 */
module Catalog {
  import opened Wrappers
  import Strings
  import Integers

  /**
   One row of the table. Building the search text at start-up reads the name,
   objective and advantages columns, so every loaded table has them; the other
   three columns are first read when an answer is generated, and None stands
   for a column the table does not have.
   */
  datatype Product = Product(
    name: string,
    objective: string,
    instructions: Option<string>,
    advantages: string,
    presentation: Option<string>,
    moreInfo: Option<string>)

  /** The row carries every column the answer prompt reads. */
  predicate HasDetails(p: Product) {
    p.instructions.Some? && p.presentation.Some? && p.moreInfo.Some?
  }

  /** The row as the selection prompt shows it: `{i}. {name} - {objective}`. */
  function ListingLine(i: nat, p: Product): string {
    Integers.ShowNat(i) + ". " + p.name + " - " + p.objective
  }

  function ListingLines(rows: seq<Product>): seq<string> {
    seq(|rows|, i requires 0 <= i < |rows| => ListingLine(i, rows[i]))
  }

  /** The product list sent with every selection request: one line per row, in row order. */
  function Listing(rows: seq<Product>): (r: string)
    ensures |rows| == 0 ==> r == ""
    ensures |rows| > 0 ==> |r| >= |ListingLine(0, rows[0])| && r[..|ListingLine(0, rows[0])|] == ListingLine(0, rows[0])
  {
    var lines := ListingLines(rows);
    if |lines| > 1 then
      Strings.JoinLinesStartsWithFirst(lines);
      Strings.JoinLines(lines)
    else
      Strings.JoinLines(lines)
  }

  /**
   When no name or objective holds a line break, the listing has exactly one
   line per row, and line `i` is row `i` numbered `i`.
   */
  lemma ListingHasOneLinePerRow(rows: seq<Product>)
    requires |rows| > 0
    requires forall i :: 0 <= i < |rows| ==> '\n' !in rows[i].name && '\n' !in rows[i].objective
    ensures |Strings.SplitLines(Listing(rows))| == |rows|
    ensures forall i :: 0 <= i < |rows| ==> Strings.SplitLines(Listing(rows))[i] == ListingLine(i, rows[i])
  {
    var lines := ListingLines(rows);
    forall i | 0 <= i < |lines|
      ensures '\n' !in lines[i]
    {
      assert '\n' !in Integers.ShowNat(i);
    }
    Strings.SplitJoinLines(lines);
  }
}
