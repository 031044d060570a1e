/**
 * What the HTML traversal of a detail page yields, as plain values: the model
 * starts after BeautifulSoup has found the elements.
 */
module Page {
  import opened Wrappers

  /** The texts of the `p` elements of a `div.txt`, in document order. */
  type TextBlock = seq<string>

  /** A table's rows, each the list of its `td` texts (`get_text(strip=True)`), header row included. */
  type Table = seq<seq<string>>

  /**
   * A `div.section`: the text of its `h4` (if it has one), its `div.txt` (if
   * any) and the `table` inside its `div.table` (if both are there).
   */
  datatype Section = Section(heading: Option<string>, txt: Option<TextBlock>, table: Option<Table>)
}
