/** `Series2D` of `parse_kvm_event.py`: one row of measurements per
    experiment run, grown one item at a time. */
module Series {
  import opened Outcomes

  datatype Series2D<T> = Series2D(data: seq<seq<T>>, ysize: int)

  /** `Series2D(ysize)`: `ysize` empty rows (none when `ysize` is not
      positive, as `range` gives). */
  function New<T>(ysize: int): (s: Series2D<T>)
    ensures s.ysize == ysize
    ensures |s.data| == (if ysize > 0 then ysize else 0)
    ensures forall y :: 0 <= y < |s.data| ==> s.data[y] == []
  {
    Series2D(seq(if ysize > 0 then ysize else 0, _ => []), ysize)
  }

  /** The row a Python index `y` selects in a list of `n` rows: negative
      indices count from the end. */
  function RowOf(n: nat, y: int): int {
    if y >= 0 then y else n + y
  }

  /** `append_to_row(y, item)`: `item` goes to the end of row `y` and every
      other row is left as it was; an index outside the list is Python's
      IndexError. */
  function AppendToRow<T>(s: Series2D<T>, y: int, item: T): (r: Result<Series2D<T>>)
    ensures r.Ok? <==> -|s.data| <= y < |s.data|
    ensures r.Err? ==> r.error == IndexError
    ensures r.Ok? ==> && r.value.ysize == s.ysize
                      && |r.value.data| == |s.data|
                      && 0 <= RowOf(|s.data|, y) < |s.data|
                      && r.value.data[RowOf(|s.data|, y)] == s.data[RowOf(|s.data|, y)] + [item]
                      && forall k :: 0 <= k < |s.data| && k != RowOf(|s.data|, y) ==> r.value.data[k] == s.data[k]
  {
    if -|s.data| <= y < |s.data| then
      var row := RowOf(|s.data|, y);
      Ok(s.(data := s.data[row := s.data[row] + [item]]))
    else Err(IndexError)
  }
}
