/** The singly linked cells that hold one bucket's chain. A cell is never changed
    after it is linked in (new cells only ever go in front of a chain), so a chain is
    modelled as an immutable list value; `Nil` plays the part of a null reference. */
module LinkedLists {

  datatype LinkedList<T> = Nil | Cell(data: T, next: LinkedList<T>)

  /** The data of the cells of `list`, in chain order. */
  function Elements<T>(list: LinkedList<T>): seq<T> {
    match list
    case Nil => []
    case Cell(data, next) => [data] + Elements(next)
  }
}
