/** The cell type shared by the linked containers. */
module Nodes {

  /** One cell of a singly linked chain: a stored value and the next cell. */
  class Node<T> {
    var value: T
    var next: Node?<T>

    /** A fresh cell holding `value` and pointing nowhere. */
    constructor (value: T)
      ensures this.value == value && next == null
    {
      this.value := value;
      next := null;
    }
  }
}
