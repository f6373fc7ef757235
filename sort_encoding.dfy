/**
 * The sort dropdown's option values (dataview.ts, lines 291-303): a field name
 * sorts ascending, a field name prefixed with `!` sorts descending.
 */
module SortEncoding {

  datatype SortChoice = SortChoice(field: string, order: int)

  /** Turns `"!field"` into `(field, -1)` and `"field"` into `(field, 1)`. */
  function DecodeSortValue(v: string): (c: SortChoice)
    ensures c.order == -1 || c.order == 1
    ensures c.order == -1 <==> |v| > 0 && v[0] == '!'
    ensures |c.field| == (if c.order == -1 then |v| - 1 else |v|)
  {
    if |v| > 0 && v[0] == '!' then SortChoice(v[1..], -1)
    else SortChoice(v, 1)
  }

  /** The option value that selects `c`. */
  function EncodeSortValue(c: SortChoice): string
  {
    if c.order < 0 then "!" + c.field else c.field
  }

  /** Every option value decodes to a choice that encodes back to it. */
  lemma EncodeDecode(v: string)
    ensures EncodeSortValue(DecodeSortValue(v)) == v
  {
    if |v| > 0 && v[0] == '!' {
      assert v == "!" + v[1..];
    }
  }

  /**
   * Every ascending or descending choice round-trips through its option value,
   * provided the field name does not itself begin with `!`.
   */
  lemma DecodeEncode(c: SortChoice)
    requires c.order == 1 || c.order == -1
    requires c.field == [] || c.field[0] != '!'
    ensures DecodeSortValue(EncodeSortValue(c)) == c
  {
    if c.order == -1 {
      assert ("!" + c.field)[1..] == c.field;
    }
  }

  /** A field name that begins with `!` cannot be selected in ascending order. */
  lemma BangFieldReadsDescending(field: string)
    requires |field| > 0 && field[0] == '!'
    ensures DecodeSortValue(EncodeSortValue(SortChoice(field, 1))) == SortChoice(field[1..], -1)
  {
  }
}
