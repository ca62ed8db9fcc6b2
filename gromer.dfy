/**
 * The growable array ("Gromer") that the heap in src/ag_heap.c works over.
 * It is an external library; only what the heap uses is modelled: the used
 * slots (gr->data[0 .. gr->used)) and gr_push, which appends one slot.
 */
module Container {

  class Gromer<T> {
    /** The used slots; |data| is gr->used. */
    var data: seq<T>

    constructor (items: seq<T>)
      ensures data == items
    {
      data := items;
    }

    /** gr_push: append one slot holding x. */
    method Push(x: T)
      modifies this
      ensures data == old(data) + [x]
    {
      data := data + [x];
    }
  }
}
