/**
 * The domain entities the library service works on. All of them are values:
 * the service reads them and builds new ones, it never updates one in place.
 */
module Models {

  /** The kind of a Media item. */
  datatype MediaType = Book | Music | Video

  /**
   * An item a library can lend. Every variant is identified by its `isbn`;
   * the descriptive fields play no part in the service's logic.
   */
  datatype Checkable =
    | Media(isbn: string, title: string, author: string, mediaType: MediaType)
    | ScienceKit(isbn: string, title: string)
    | Ticket(isbn: string, title: string)

  /** The holder of a library card; only its identity is used. */
  datatype Patron = Patron(name: string)

  /** A lent item with its due moment (an instant on an integer time line). */
  datatype Checkout = Checkout(checkable: Checkable, due: int)

  /** A patron's card at a library, with the checkouts made on it. */
  datatype LibraryCard = LibraryCard(patron: Patron, checkouts: seq<Checkout>)

  /** How many copies of one checkable a library stocks. */
  datatype CheckableAmount = CheckableAmount(checkable: Checkable, amount: int)

  /** A library: its name, its stock and the cards issued by it. */
  datatype Library = Library(name: string, checkables: seq<CheckableAmount>, cards: seq<LibraryCard>)

  /** One row of the cross-library availability report. */
  datatype LibraryAvailableCheckouts = LibraryAvailableCheckouts(amount: int, libraryName: string)

  /** One row of the overdue report of a library. */
  datatype OverdueCheckout = OverdueCheckout(patron: Patron, checkout: Checkout)
}
