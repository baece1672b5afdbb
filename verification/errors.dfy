/**
 The failures a sort, select or median call can report (Sorter.SorterError),
 and the range validation every range-taking operation performs before it
 writes anything.
 */
module SortErrors {

  datatype SorterError =
    | IllegalIndices    // fromIndex > toIndex, or a select position past the range
    | IndexOutOfBounds  // fromIndex < 0 or toIndex > count
    | SortingError      // quicksort's explicit stack ran out of slots

  datatype Option<T> = None | Some(value: T)

  /** The value an operation returns, or the error it throws. */
  datatype Result<T> = Ok(value: T) | Err(error: SorterError)

  /** The two guards at the top of every sort, select and median: the order of
      the bounds is checked first, then that they lie inside the array. */
  function CheckRange(count: int, fromIndex: int, toIndex: int): (e: Option<SorterError>)
    ensures e == None <==> 0 <= fromIndex <= toIndex <= count
    ensures e == Some(IllegalIndices) <==> fromIndex > toIndex
    ensures e == Some(IndexOutOfBounds) <==> fromIndex <= toIndex && (fromIndex < 0 || toIndex > count)
    ensures e != Some(SortingError)
  {
    if fromIndex > toIndex then Some(IllegalIndices)
    else if fromIndex < 0 || toIndex > count then Some(IndexOutOfBounds)
    else None
  }
}
