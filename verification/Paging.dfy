/** Reading a long listing page by page, as the clients of the list endpoints do. */
module Paging {

  const LIST_REQUEST_SIZE: nat := 500

  /** The server's page: the rows from the cursor on; the next cursor is the end of the page. */
  function Page<T>(rows: seq<T>, cursor: nat, size: nat): (page: seq<T>)
    ensures |page| <= size
  {
    if cursor >= |rows| then []
    else if cursor + size <= |rows| then rows[cursor..cursor + size] else rows[cursor..]
  }

  /** Ends after the first short or empty page, with the whole listing, also when its length is a
      multiple of the page size. */
  method Gather<T>(rows: seq<T>) returns (all: seq<T>)
    ensures all == rows
  {
    all := [];
    var cursor := 0;
    while true
      invariant cursor <= |rows| && all == rows[..cursor]
      decreases |rows| - cursor
    {
      var page := Page(rows, cursor, LIST_REQUEST_SIZE);
      all := all + page;
      assert all == rows[..cursor + |page|];
      if |page| == 0 || |page| < LIST_REQUEST_SIZE {
        assert cursor + |page| == |rows|;
        return;
      }
      cursor := cursor + |page|;
    }
  }
}
