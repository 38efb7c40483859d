/** The SQL the loaders send, as tokens rather than text: an INSERT carries the
    target table and its value list, and the schema statement carries the
    column layout of DROP TABLE IF EXISTS followed by CREATE TABLE. */
module Sql {
  import opened Values
  import opened Schema

  /** One entry of an INSERT's value list: interpolated bare, or wrapped in
      single quotes. */
  datatype Token = Bare(text: string) | Quoted(text: string)

  /** The characters a token contributes to the statement text. */
  function TokenText(t: Token): (r: string)
    ensures t.Quoted? ==> |r| == |t.text| + 2 && r[0] == Apostrophe && r[|r| - 1] == Apostrophe
    ensures t.Quoted? ==> Count(r, Apostrophe) == Count(t.text, Apostrophe) + 2
    ensures t.Quoted? ==> r[1..|r| - 1] == t.text
    ensures t.Bare? ==> r == t.text
  {
    match t
    case Bare(x) => x
    case Quoted(x) =>
      CountConcat([Apostrophe], x);
      CountConcat([Apostrophe] + x, [Apostrophe]);
      [Apostrophe] + x + [Apostrophe]
  }

  /** Counting distributes over concatenation. */
  lemma {:induction false} CountConcat(a: string, b: string)
    ensures Count(a + b, Apostrophe) == Count(a, Apostrophe) + Count(b, Apostrophe)
  {
    if a == [] {
      assert a + b == b;
    } else {
      assert (a + b)[0] == a[0] && (a + b)[1..] == a[1..] + b;
      CountConcat(a[1..], b);
    }
  }

  datatype Statement =
    | Insert(table: string, values: seq<Token>)
    | Recreate(table: string, columns: seq<Column>)
}
