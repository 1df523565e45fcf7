/**
 * The one operation of the checkable service the library service relies on:
 * validated lookup of an item of the checkable store by its isbn.
 */
module CheckableService {
  import opened Models
  import opened Exceptions

  /** Some item of the store carries this isbn. */
  predicate HasIsbn(store: seq<Checkable>, isbn: string)
  {
    exists i :: 0 <= i < |store| && store[i].isbn == isbn
  }

  /**
   * The item of the store with this isbn (the first, should there be several),
   * or CheckableNotFound when no item carries it.
   */
  function GetByIsbn(store: seq<Checkable>, isbn: string): (r: Result<Checkable>)
    ensures r.Ok? <==> HasIsbn(store, isbn)
    ensures r.Ok? ==> r.value.isbn == isbn && r.value in store
    ensures r.Ok? ==> exists i :: 0 <= i < |store| && store[i] == r.value &&
                                 forall j :: 0 <= j < i ==> store[j].isbn != isbn
    ensures r.Err? ==> r.error == CheckableNotFound(isbn)
  {
    if |store| == 0 then Err(CheckableNotFound(isbn))
    else if store[0].isbn == isbn then Ok(store[0])
    else
      var rest := GetByIsbn(store[1..], isbn);
      assert HasIsbn(store, isbn) ==> HasIsbn(store[1..], isbn) by {
        if HasIsbn(store, isbn) {
          var i :| 0 <= i < |store| && store[i].isbn == isbn;
          assert store[1..][i - 1].isbn == isbn;
        }
      }
      if rest.Ok? then
        assert HasIsbn(store, isbn) by {
          var k :| 0 <= k < |store[1..]| && store[1..][k] == rest.value &&
                   forall j :: 0 <= j < k ==> store[1..][j].isbn != isbn;
          assert store[k + 1] == rest.value;
        }
        rest
      else rest
  }
}
